// A write session: batches go in, segments come out. A segment is cut between two
// batches, at the first boundary where the limit is reached, and stores exactly the
// columns of its batches.
module WriteSession {
  import opened Bits
  import opened Wire
  import opened StatsPass
  import opened Disi
  import opened ColBuffers
  import opened DvFile

  datatype FieldSpec = FieldSpec(name: string, coercion: Coercion)

  datatype Batch = Batch(rows: nat, columns: map<string, Column>)

  // What a record batch guarantees: all its columns have its length.
  ghost predicate WellFormed(b: Batch) { forall name :: name in b.columns ==> Rows(b.columns[name]) == b.rows }

  predicate Accepts(spec: FieldSpec, b: Batch) {
    spec.name in b.columns && OfKind(b.columns[spec.name], spec.coercion)
  }

  ghost predicate AcceptsAll(fields: seq<FieldSpec>, b: Batch) {
    WellFormed(b) && forall i :: 0 <= i < |fields| ==> Accepts(fields[i], b)
  }

  // A field of a segment: what its doc-values or vector writer is given.
  datatype Stored = Doc(input: FieldInput) | Flat(docs: seq<nat>, data: seq<nat>)

  datatype Segment = Segment(fields: seq<Stored>, maxDoc: nat)

  // ----- batches and their columns ---------------------------------------------------------

  function RowsOf(batches: seq<Batch>): nat {
    if batches == [] then 0 else RowsOf(batches[..|batches| - 1]) + batches[|batches| - 1].rows
  }

  function ColumnOf(spec: FieldSpec, b: Batch): Column {
    if spec.name in b.columns then Normal(b.columns[spec.name]) else EmptyColumn(spec.coercion)
  }

  // One column of several batches, end to end.
  function Merged(spec: FieldSpec, batches: seq<Batch>): Column {
    if batches == [] then EmptyColumn(spec.coercion)
    else Joined(Merged(spec, batches[..|batches| - 1]), ColumnOf(spec, batches[|batches| - 1]))
  }

  ghost predicate AllAccept(spec: FieldSpec, batches: seq<Batch>) {
    forall j :: 0 <= j < |batches| ==> WellFormed(batches[j]) && Accepts(spec, batches[j])
  }

  lemma {:induction false} MergedRows(spec: FieldSpec, batches: seq<Batch>)
    requires AllAccept(spec, batches)
    ensures Rows(Merged(spec, batches)) == RowsOf(batches) && OfKind(Merged(spec, batches), spec.coercion)
    decreases |batches|
  {
    if batches != [] {
      MergedRows(spec, batches[..|batches| - 1]);
    }
  }

  lemma {:induction false} RowsJoin(a: seq<Batch>, b: seq<Batch>)
    ensures RowsOf(a + b) == RowsOf(a) + RowsOf(b)
    decreases |b|
  {
    if b == [] {
      assert a + b == a;
    } else {
      assert (a + b)[..|a + b| - 1] == a + b[..|b| - 1];
      RowsJoin(a, b[..|b| - 1]);
    }
  }

  lemma JoinedThree(a: Column, b: Column, c: Column, k: Coercion)
    requires OfKind(a, k) && OfKind(b, k) && OfKind(c, k)
    ensures Joined(Joined(a, b), c) == Joined(a, Joined(b, c)) && OfKind(Joined(a, b), k)
  {
    match a
    case Ints(x) => Assoc(x, b.ints, c.ints);
    case Texts(x) => Assoc(x, b.texts, c.texts);
    case Blobs(x) => Assoc(x, b.blobs, c.blobs);
    case IntLists(x) => Assoc(x, b.intLists, c.intLists);
    case TextLists(x) => Assoc(x, b.textLists, c.textLists);
    case Vectors(x) => Assoc(x, b.vectors, c.vectors);
  }

  lemma JoinedNothing(a: Column, k: Coercion)
    requires OfKind(a, k)
    ensures Joined(a, EmptyColumn(k)) == a && Joined(EmptyColumn(k), a) == a
  {
  }

  lemma {:induction false} MergedJoin(spec: FieldSpec, a: seq<Batch>, b: seq<Batch>)
    requires AllAccept(spec, a) && AllAccept(spec, b)
    ensures Merged(spec, a + b) == Joined(Merged(spec, a), Merged(spec, b))
    decreases |b|
  {
    hide Joined, OfKind, EmptyColumn, ColumnOf, WellFormed, Accepts, RowsOf;
    MergedRows(spec, a);
    if b == [] {
      assert a + b == a;
      JoinedNothing(Merged(spec, a), spec.coercion);
    } else {
      var most, last := b[..|b| - 1], b[|b| - 1];
      assert (a + b)[..|a + b| - 1] == a + most;
      MergedJoin(spec, a, most);
      MergedRows(spec, most);
      NormalKind(spec, last);
      JoinedThree(Merged(spec, a), Merged(spec, most), ColumnOf(spec, last), spec.coercion);
    }
  }

  lemma NormalKind(spec: FieldSpec, b: Batch)
    requires WellFormed(b) && Accepts(spec, b)
    ensures OfKind(ColumnOf(spec, b), spec.coercion) && Rows(ColumnOf(spec, b)) == b.rows
  {
  }

  // ----- segments ----------------------------------------------------------------------------

  ghost predicate StoredAs(st: Stored, c: Column) {
    match c
    case Ints(x) => st == Doc(NumericField(Present(x, 0), Values(x)))
    case Texts(x) => st == Doc(SortedField(Present(x, 0), Values(x)))
    case Blobs(x) => st == Doc(BinaryField(Present(x, 0), Values(x)))
    case IntLists(x) => st == Doc(SortedNumericField(Present(x, 0), Values(x)))
    case TextLists(x) => st == Doc(SortedSetField(Present(x, 0), Values(x)))
    case Vectors(x) => st == Flat(Present(x, 0), Flatten(Values(x)))
  }

  // The segment stores the columns of the batches, all of their rows.
  ghost predicate SegmentOf(seg: Segment, batches: seq<Batch>, fields: seq<FieldSpec>) {
    && seg.maxDoc == RowsOf(batches) && seg.maxDoc > 0 && |seg.fields| == |fields|
    && forall i :: 0 <= i < |fields| ==> AllAccept(fields[i], batches) && StoredAs(seg.fields[i], Merged(fields[i], batches))
  }

  ghost predicate SegmentsOf(segs: seq<Segment>, groups: seq<seq<Batch>>, fields: seq<FieldSpec>) {
    |segs| == |groups| && forall s :: 0 <= s < |segs| ==> SegmentOf(segs[s], groups[s], fields)
  }

  ghost predicate Full(g: seq<Batch>, limit: nat) { RowsOf(g) >= limit }

  // No earlier boundary reaches the limit.
  ghost predicate Open(g: seq<Batch>, limit: nat) { g == [] || RowsOf(g[..|g| - 1]) < limit }

  // Cut at the first boundary with enough documents, and nowhere else.
  ghost predicate IsCut(groups: seq<seq<Batch>>, limit: nat) {
    forall s :: 0 <= s < |groups| ==> groups[s] != [] && Open(groups[s], limit) && (s < |groups| - 1 ==> Full(groups[s], limit))
  }

  // Where the cuts fall is determined by the batches and the limit.
  lemma {:induction false} CutUnique(a: seq<seq<Batch>>, b: seq<seq<Batch>>, limit: nat)
    requires IsCut(a, limit) && IsCut(b, limit) && Flatten(a) == Flatten(b)
    ensures a == b
    decreases |a|
  {
    hide Full, Open;
    if a == [] || b == [] {
      NothingCut(a, b, limit);
    } else {
      SameFirst(a, b, limit);
      SameFirst(b, a, limit);
      assert a[0] == Flatten(a)[..|a[0]|] && b[0] == Flatten(b)[..|b[0]|];
      assert Flatten(a)[|a[0]|..] == Flatten(a[1..]) && Flatten(b)[|b[0]|..] == Flatten(b[1..]);
      CutUnique(a[1..], b[1..], limit);
    }
  }

  lemma NothingCut(a: seq<seq<Batch>>, b: seq<seq<Batch>>, limit: nat)
    requires IsCut(a, limit) && IsCut(b, limit) && Flatten(a) == Flatten(b) && (a == [] || b == [])
    ensures a == b
  {
  }

  lemma SameFirst(a: seq<seq<Batch>>, b: seq<seq<Batch>>, limit: nat)
    requires IsCut(a, limit) && IsCut(b, limit) && a != [] && b != [] && Flatten(a) == Flatten(b)
    ensures |a[0]| >= |b[0]|
  {
    if |a| == 1 {
      assert Flatten(a) == a[0] by { FlattenOne(a[0]); }
    } else if |a[0]| < |b[0]| {
      var all := Flatten(a);
      assert a[0] == all[..|a[0]|] && b[0] == all[..|b[0]|];
      assert Full(a[0], limit);
      var most := b[0][..|b[0]| - 1];
      assert most == a[0] + most[|a[0]|..];
      RowsJoin(a[0], most[|a[0]|..]);
    }
  }

  // Segments for all the batches: the groups in order make up the batches, but for
  // batches without rows at the very end.
  ghost predicate Delivers(segs: seq<Segment>, groups: seq<seq<Batch>>, tail: seq<Batch>, batches: seq<Batch>,
                           fields: seq<FieldSpec>, limit: nat)
  {
    && IsCut(groups, limit) && Flatten(groups) + tail == batches && RowsOf(tail) == 0
    && SegmentsOf(segs, groups, fields)
  }

  // The stored columns end to end.
  function JoinGroups(spec: FieldSpec, groups: seq<seq<Batch>>): Column {
    if groups == [] then EmptyColumn(spec.coercion) else Joined(Merged(spec, groups[0]), JoinGroups(spec, groups[1..]))
  }

  lemma {:induction false} GroupsMerge(spec: FieldSpec, groups: seq<seq<Batch>>)
    requires AllAccept(spec, Flatten(groups))
    ensures JoinGroups(spec, groups) == Merged(spec, Flatten(groups))
    decreases |groups|
  {
    hide Joined, OfKind, Accepts, WellFormed, EmptyColumn;
    if groups != [] {
      var first, rest := groups[0], Flatten(groups[1..]);
      assert forall j :: 0 <= j < |first| ==> first[j] == Flatten(groups)[j];
      assert forall j :: 0 <= j < |rest| ==> rest[j] == Flatten(groups)[|first| + j];
      GroupsMerge(spec, groups[1..]);
      MergedJoin(spec, first, rest);
    }
  }

  lemma {:induction false} NoRowsNothing(spec: FieldSpec, batches: seq<Batch>)
    requires AllAccept(spec, batches) && RowsOf(batches) == 0
    ensures Merged(spec, batches) == EmptyColumn(spec.coercion)
  {
    MergedRows(spec, batches);
  }

  // Nothing is lost, doubled or moved: column by column, the segments laid end to end
  // are the batches laid end to end.
  lemma Conserved(segs: seq<Segment>, groups: seq<seq<Batch>>, tail: seq<Batch>, batches: seq<Batch>,
                  fields: seq<FieldSpec>, limit: nat, i: nat)
    requires Delivers(segs, groups, tail, batches, fields, limit) && i < |fields| && AllAccept(fields[i], batches)
    ensures JoinGroups(fields[i], groups) == Merged(fields[i], batches)
    ensures forall s :: 0 <= s < |segs| ==> StoredAs(segs[s].fields[i], Merged(fields[i], groups[s]))
  {
    hide Merged, JoinGroups, StoredAs, Joined, Accepts, WellFormed, OfKind, EmptyColumn, Rows;
    var spec, all := fields[i], Flatten(groups);
    assert forall j :: 0 <= j < |all| ==> all[j] == batches[j];
    assert forall j :: 0 <= j < |tail| ==> tail[j] == batches[|all| + j];
    GroupsMerge(spec, groups);
    MergedJoin(spec, all, tail);
    NoRowsNothing(spec, tail);
    MergedRows(spec, all);
    JoinedNothing(Merged(spec, all), spec.coercion);
  }

  // ----- the buffers of a session ---------------------------------------------------------------

  // The dense lane keeps one chunk a batch.
  ghost predicate ChunkEach(b: ColBuffer, batches: seq<Batch>) {
    b.NumericDense? ==> |b.chunks| == |batches| && forall j :: 0 <= j < |batches| ==> |b.chunks[j]| == batches[j].rows
  }

  ghost predicate BufferHolds(b: ColBuffer, spec: FieldSpec, batches: seq<Batch>) {
    Suits(b, spec.coercion) && AllAccept(spec, batches) && Holds(b, Merged(spec, batches)) && ChunkEach(b, batches)
  }

  // Who packs a segment's numbers. The host looks at the first value of a dense column's
  // first chunk; the device uploads the chunks end to end.
  datatype Encoder = Host | Device

  predicate Starves(e: Encoder, b: ColBuffer) { e.Host? && b.NumericDense? && (b.chunks == [] || b.chunks[0] == []) }

  // A dense column stays dense up to its first null, and is never dense again.
  predicate StaysDense(spec: FieldSpec, batches: seq<Batch>) {
    spec.coercion.Passthrough? && forall j :: 0 <= j < |batches| ==> WithoutNulls(spec, batches[j])
  }

  predicate WithoutNulls(spec: FieldSpec, b: Batch) {
    spec.name in b.columns && match b.columns[spec.name] case Ints(x) => NoNulls(x) case _ => false
  }

  ghost predicate DenseIs(buffers: seq<ColBuffer>, fields: seq<FieldSpec>, batches: seq<Batch>) {
    |buffers| == |fields| && forall i :: 0 <= i < |fields| ==> (buffers[i].NumericDense? <==> StaysDense(fields[i], batches))
  }

  lemma DenseNone(fields: seq<FieldSpec>)
    ensures DenseIs(seq(|fields|, i requires 0 <= i < |fields| => ForCoercion(fields[i].coercion)), fields, [])
  {
  }

  lemma DenseCleared(buffers: seq<ColBuffer>, fields: seq<FieldSpec>, batches: seq<Batch>)
    requires DenseIs(buffers, fields, batches)
    ensures DenseIs(ClearAll(buffers), fields, batches)
  {
    hide StaysDense;
  }

  // The first i buffers have taken the batch.
  ghost predicate DensePart(buffers: seq<ColBuffer>, fields: seq<FieldSpec>, batches: seq<Batch>, batch: Batch, i: nat) {
    |buffers| == |fields| && forall j :: 0 <= j < |fields| ==>
      (buffers[j].NumericDense? <==> StaysDense(fields[j], if j < i then batches + [batch] else batches))
  }

  lemma DenseNext(buffers: seq<ColBuffer>, b': ColBuffer, fields: seq<FieldSpec>, batches: seq<Batch>, batch: Batch, i: nat)
    requires DensePart(buffers, fields, batches, batch, i) && i < |fields| && Accepts(fields[i], batch) && Suits(buffers[i], fields[i].coercion)
    requires b'.NumericDense? <==> buffers[i].NumericDense? && NoNulls(batch.columns[fields[i].name].ints)
    ensures DensePart(buffers[i := b'], fields, batches, batch, i + 1)
  {
    StaysMore(fields[i], batches, batch);
    hide StaysDense, Accepts, NoNulls;
  }

  lemma StaysMore(spec: FieldSpec, batches: seq<Batch>, batch: Batch)
    ensures StaysDense(spec, batches + [batch]) <==> StaysDense(spec, batches) && WithoutNulls(spec, batch)
  {
    hide WithoutNulls;
    var all := batches + [batch];
    assert all[|batches|] == batch;
    assert forall j :: 0 <= j < |batches| ==> all[j] == batches[j];
  }

  // The segment of group s opens on a batch without rows, and field i is still dense in it.
  ghost predicate StarvesAt(fields: seq<FieldSpec>, groups: seq<seq<Batch>>, s: nat, i: nat) {
    && s < |groups| && i < |fields| && groups[s] != [] && groups[s][0].rows == 0 && RowsOf(groups[s]) > 0
    && StaysDense(fields[i], Flatten(groups[..s + 1]))
  }

  ghost predicate StarvesIn(fields: seq<FieldSpec>, groups: seq<seq<Batch>>) {
    exists s: nat, i: nat :: StarvesAt(fields, groups, s, i)
  }

  method StoreBuffer(b: ColBuffer, e: Encoder, maxDoc: nat, ghost c: Column, ghost k: Coercion) returns (r: Result<Stored>)
    requires Suits(b, k) && Holds(b, c) && OfKind(c, k) && Rows(c) == maxDoc
    ensures r == Err(Panic) || r.Ok?
    ensures r.Err? <==> Starves(e, b)
    ensures r.Ok? ==> StoredAs(r.value, c)
  {
    hide Flatten, Present, Values, AllSome;
    match b
    case NumericDense(chunks, _) =>
      if Starves(e, b) {
        return Err(Panic);
      }
      PresentAll(Flatten(chunks), 0);
      return Ok(Doc(NumericField(Range(0, maxDoc), Flatten(chunks))));
    case Numeric(docs, values) => return Ok(Doc(NumericField(docs, values)));
    case Vector(docs, data) => return Ok(Flat(docs, data));
    case Sorted(docs, terms) => return Ok(Doc(SortedField(docs, terms)));
    case Bytes(docs, strings) => return Ok(Doc(BinaryField(docs, strings)));
    case MultiNumeric(docs, lists) => return Ok(Doc(SortedNumericField(docs, lists)));
    case MultiTerms(docs, sets) => return Ok(Doc(SortedSetField(docs, sets)));
  }

  lemma BufferMore(b: ColBuffer, b': ColBuffer, spec: FieldSpec, batches: seq<Batch>, batch: Batch)
    requires BufferHolds(b, spec, batches) && WellFormed(batch) && Accepts(spec, batch)
    requires var col := batch.columns[spec.name];
             && Suits(b', spec.coercion) && Holds(b', Joined(Merged(spec, batches), Normal(col)))
             && (b'.NumericDense? ==> b.NumericDense? && col.Ints? && NoNulls(col.ints) && b'.chunks == b.chunks + [Values(col.ints)])
    ensures BufferHolds(b', spec, batches + [batch])
  {
    hide Holds, Present, Values, Suits, Joined;
    assert (batches + [batch])[..|batches|] == batches;
    if b'.NumericDense? {
      FullColumn(batch.columns[spec.name].ints);
    }
  }

  lemma BufferEmpty(b: ColBuffer, spec: FieldSpec)
    requires Suits(b, spec.coercion)
    ensures BufferHolds(Cleared(b), spec, []) && BufferHolds(ForCoercion(spec.coercion), spec, [])
  {
    ClearedHolds(b, spec.coercion);
    EmptyHolds(spec.coercion);
  }

  function ClearAll(buffers: seq<ColBuffer>): seq<ColBuffer> {
    seq(|buffers|, i requires 0 <= i < |buffers| => Cleared(buffers[i]))
  }

  ghost predicate BuffersHold(buffers: seq<ColBuffer>, fields: seq<FieldSpec>, batches: seq<Batch>) {
    |buffers| == |fields| && forall i :: 0 <= i < |fields| ==> BufferHolds(buffers[i], fields[i], batches)
  }

  // The first i buffers have taken the batch.
  ghost predicate PartTaken(buffers: seq<ColBuffer>, fields: seq<FieldSpec>, batches: seq<Batch>, batch: Batch, i: nat) {
    |buffers| == |fields| && forall j :: 0 <= j < |fields| ==>
      BufferHolds(buffers[j], fields[j], if j < i then batches + [batch] else batches)
  }

  lemma OneTaken(buffers: seq<ColBuffer>, b': ColBuffer, fields: seq<FieldSpec>, batches: seq<Batch>, batch: Batch, i: nat)
    requires PartTaken(buffers, fields, batches, batch, i) && i < |fields| && WellFormed(batch) && Accepts(fields[i], batch)
    requires BufferHolds(b', fields[i], batches + [batch])
    ensures PartTaken(buffers[i := b'], fields, batches, batch, i + 1)
  {
    hide BufferHolds;
  }

  ghost predicate StoredUpTo(stored: seq<Stored>, fields: seq<FieldSpec>, batches: seq<Batch>) {
    |stored| <= |fields| && forall i :: 0 <= i < |stored| ==> StoredAs(stored[i], Merged(fields[i], batches))
  }

  // ----- the session ---------------------------------------------------------------------------------

  class WriteSession {
    const fields: seq<FieldSpec>
    const limit: nat
    const encoder: Encoder
    var buffers: seq<ColBuffer>
    var docsInSegment: nat
    var written: seq<Segment>
    ghost var groups: seq<seq<Batch>>
    ghost var pending: seq<Batch>

    // The batches taken so far.
    ghost function Taken(): seq<Batch>
      reads this
    {
      Flatten(groups) + pending
    }

    ghost predicate Sealed()
      reads this
    {
      limit > 0 && SegmentsOf(written, groups, fields) && IsCut(groups, limit)
    }

    ghost predicate Valid()
      reads this
    {
      && Sealed() && (forall s :: 0 <= s < |groups| ==> Full(groups[s], limit))
      && docsInSegment == RowsOf(pending) && Open(pending, limit) && BuffersHold(buffers, fields, pending)
      && DenseIs(buffers, fields, Taken())
    }

    // The segment in progress starts with a batch without rows and has a dense column.
    ghost predicate Starved()
      reads this
    {
      docsInSegment > 0 && exists i :: 0 <= i < |buffers| && Starves(encoder, buffers[i])
    }

    constructor (fields: seq<FieldSpec>, segmentMaxDocs: nat, encoder: Encoder)
      ensures Valid() && Taken() == [] && this.fields == fields && this.encoder == encoder
      ensures limit == if segmentMaxDocs > 0 then segmentMaxDocs else 1
    {
      this.fields := fields;
      this.encoder := encoder;
      limit := if segmentMaxDocs > 0 then segmentMaxDocs else 1;
      buffers := seq(|fields|, i requires 0 <= i < |fields| => ForCoercion(fields[i].coercion));
      docsInSegment, written, groups, pending := 0, [], [], [];
      new;
      forall i | 0 <= i < |fields| ensures BufferHolds(buffers[i], fields[i], []) {
        EmptyHolds(fields[i].coercion);
        BufferEmpty(ForCoercion(fields[i].coercion), fields[i]);
      }
      DenseNone(fields);
    }

    method StoreAll() returns (r: Result<seq<Stored>>)
      requires BuffersHold(buffers, fields, pending) && docsInSegment == RowsOf(pending)
      ensures r == Err(Panic) || r.Ok?
      ensures r.Err? <==> exists i :: 0 <= i < |buffers| && Starves(encoder, buffers[i])
      ensures r.Ok? ==> |r.value| == |fields| && StoredUpTo(r.value, fields, pending)
    {
      hide StoredAs, Holds, Merged, Suits, OfKind;
      var stored: seq<Stored> := [];
      while |stored| < |fields|
        invariant StoredUpTo(stored, fields, pending)
        invariant forall i :: 0 <= i < |stored| ==> !Starves(encoder, buffers[i])
      {
        ghost var spec := fields[|stored|];
        assert BufferHolds(buffers[|stored|], spec, pending);
        MergedRows(spec, pending);
        var st :- StoreBuffer(buffers[|stored|], encoder, docsInSegment, Merged(spec, pending), spec.coercion);
        stored := stored + [st];
      }
      return Ok(stored);
    }

    method FlushSegment() returns (r: Result<()>)
      requires Valid()
      modifies this
      ensures r == Err(Panic) || r.Ok?
      ensures r.Err? <==> old(Starved())
      ensures Sealed() && Taken() == old(Taken())
      ensures r.Err? || old(docsInSegment) == 0 ==> groups == old(groups) && pending == old(pending)
      ensures r.Ok? && old(docsInSegment) > 0 ==> groups == old(groups) + [old(pending)] && pending == []
      ensures r.Ok? ==> docsInSegment == 0 && RowsOf(pending) == 0 && BuffersHold(buffers, fields, pending)
      ensures r.Ok? ==> DenseIs(buffers, fields, Taken())
    {
      hide BufferHolds, StoredAs, Merged, Starves, AllAccept, Open, Full, DenseIs;
      if docsInSegment == 0 {
        return Ok(());
      }
      var stored :- StoreAll();
      ghost var seg := Segment(stored, docsInSegment);
      StoredSegment(stored, fields, pending, buffers);
      CutMore(groups, pending, limit);
      FlattenJoin(groups, [pending]);
      FlattenOne(pending);
      NothingMore(Flatten(groups) + pending);
      written := written + [Segment(stored, docsInSegment)];
      groups, pending := groups + [pending], [];
      docsInSegment := 0;
      AllCleared(buffers, fields, old(pending));
      DenseCleared(buffers, fields, old(Taken()));
      buffers := ClearAll(buffers);
      return Ok(());
    }

    // Cuts only between batches, and only when the limit is reached.
    method Push(batch: Batch) returns (r: Result<()>)
      requires Valid() && WellFormed(batch)
      modifies this
      ensures r.Ok? <==> !(old(docsInSegment) >= limit && old(Starved())) && AcceptsAll(fields, batch)
      ensures r.Ok? ==> Valid() && Taken() == old(Taken()) + [batch]
      ensures r.Ok? ==> groups == (if old(docsInSegment) >= limit then old(groups) + [old(pending)] else old(groups))
      ensures Sealed() && old(groups) <= groups
    {
      hide BufferHolds, Starves, SegmentsOf, Full, DenseIs, DensePart;
      if docsInSegment >= limit {
        var flushed := FlushSegment();
        if flushed.Err? {
          return Err(flushed.error);
        }
        AllFull(old(groups), old(pending), limit);
      }
      StillOpen(pending, batch, limit);
      ghost var closed, taken := groups, pending;
      ghost var all := Taken();
      PartNone(buffers, fields, pending, batch);
      DenseStarts(buffers, fields, all, batch);
      var i := 0;
      while i < |fields|
        invariant i <= |fields| && PartTaken(buffers, fields, pending, batch, i)
        invariant DensePart(buffers, fields, all, batch, i)
        invariant forall j :: 0 <= j < i ==> Accepts(fields[j], batch)
        invariant groups == closed && pending == taken && docsInSegment == RowsOf(pending)
        invariant Sealed()
        modifies this`buffers
      {
        var spec := fields[i];
        if spec.name !in batch.columns {
          return Err(Invalid);
        }
        BufferAt(buffers, fields, pending, batch, i);
        var b := AppendColumn(batch.columns[spec.name], spec.coercion, docsInSegment, buffers[i], Merged(spec, pending));
        if b.Err? {
          return Err(b.error);
        }
        BufferMore(buffers[i], b.value, spec, pending, batch);
        OneTaken(buffers, b.value, fields, pending, batch, i);
        DenseNext(buffers, b.value, fields, all, batch, i);
        buffers := buffers[i := b.value];
        i := i + 1;
      }
      PartAll(buffers, fields, pending, batch);
      DenseEnds(buffers, fields, all, batch);
      RowsJoin(pending, [batch]);
      RowsOne(batch);
      Assoc(Flatten(groups), pending, [batch]);
      pending := pending + [batch];
      docsInSegment := docsInSegment + batch.rows;
      return Ok(());
    }

    method Finish() returns (r: Result<seq<Segment>>)
      requires Valid()
      modifies this
      ensures r.Ok? ==> exists groups, tail :: Delivers(r.value, groups, tail, old(Taken()), fields, limit)
      ensures r.Err? <==> old(Starved()) || RowsOf(old(Taken())) == 0
      ensures r.Err? && !old(Starved()) ==> r.error == Invalid
    {
      hide SegmentOf, Open, Full, BuffersHold, DenseIs;
      var flushed := FlushSegment();
      if flushed.Err? {
        ghost var all := old(Taken());
        return Err(flushed.error);
      }
      assert Flatten(groups) + pending == old(Taken());
      RowsJoin(Flatten(groups), pending);
      if written == [] {
        return Err(Invalid);
      }
      SomeRows(written, groups, fields);
      assert Delivers(written, groups, pending, old(Taken()), fields, limit);
      return Ok(written);
    }
  }

  lemma NothingMore<T>(s: seq<T>)
    ensures s + [] == s
  {
  }

  lemma StillOpen(g: seq<Batch>, b: Batch, limit: nat)
    requires RowsOf(g) < limit
    ensures Open(g + [b], limit)
  {
    assert (g + [b])[..|g|] == g;
  }

  lemma RowsOne(b: Batch)
    ensures RowsOf([b]) == b.rows
  {
    assert [b][..0] == [];
  }

  lemma StoredSegment(stored: seq<Stored>, fields: seq<FieldSpec>, batches: seq<Batch>, buffers: seq<ColBuffer>)
    requires |stored| == |fields| && StoredUpTo(stored, fields, batches) && BuffersHold(buffers, fields, batches) && RowsOf(batches) > 0
    ensures SegmentOf(Segment(stored, RowsOf(batches)), batches, fields)
  {
    hide StoredAs, Merged, AllAccept, Holds, Suits;
    forall i | 0 <= i < |fields| ensures AllAccept(fields[i], batches) {
      assert BufferHolds(buffers[i], fields[i], batches);
    }
  }

  lemma CutMore(groups: seq<seq<Batch>>, g: seq<Batch>, limit: nat)
    requires IsCut(groups, limit) && (forall s :: 0 <= s < |groups| ==> Full(groups[s], limit)) && Open(g, limit) && RowsOf(g) > 0
    ensures IsCut(groups + [g], limit)
  {
    hide Full, Open;
  }

  lemma AllFull(groups: seq<seq<Batch>>, g: seq<Batch>, limit: nat)
    requires (forall s :: 0 <= s < |groups| ==> Full(groups[s], limit)) && RowsOf(g) >= limit
    ensures forall s :: 0 <= s < |groups| + 1 ==> Full((groups + [g])[s], limit)
  {
  }

  lemma AllCleared(buffers: seq<ColBuffer>, fields: seq<FieldSpec>, batches: seq<Batch>)
    requires BuffersHold(buffers, fields, batches)
    ensures BuffersHold(ClearAll(buffers), fields, [])
  {
    forall i | 0 <= i < |fields| ensures BufferHolds(Cleared(buffers[i]), fields[i], []) {
      assert BufferHolds(buffers[i], fields[i], batches);
      BufferEmpty(buffers[i], fields[i]);
    }
  }

  lemma PartNone(buffers: seq<ColBuffer>, fields: seq<FieldSpec>, batches: seq<Batch>, batch: Batch)
    requires BuffersHold(buffers, fields, batches)
    ensures PartTaken(buffers, fields, batches, batch, 0)
  {
    hide BufferHolds;
  }

  lemma PartAll(buffers: seq<ColBuffer>, fields: seq<FieldSpec>, batches: seq<Batch>, batch: Batch)
    requires PartTaken(buffers, fields, batches, batch, |fields|)
    ensures BuffersHold(buffers, fields, batches + [batch])
  {
    hide BufferHolds;
  }

  lemma DenseStarts(buffers: seq<ColBuffer>, fields: seq<FieldSpec>, batches: seq<Batch>, batch: Batch)
    requires DenseIs(buffers, fields, batches)
    ensures DensePart(buffers, fields, batches, batch, 0)
  {
    hide StaysDense;
  }

  lemma DenseEnds(buffers: seq<ColBuffer>, fields: seq<FieldSpec>, batches: seq<Batch>, batch: Batch)
    requires DensePart(buffers, fields, batches, batch, |fields|)
    ensures DenseIs(buffers, fields, batches + [batch])
  {
    hide StaysDense;
  }

  lemma BufferAt(buffers: seq<ColBuffer>, fields: seq<FieldSpec>, batches: seq<Batch>, batch: Batch, i: nat)
    requires PartTaken(buffers, fields, batches, batch, i) && i < |fields|
    ensures BufferHolds(buffers[i], fields[i], batches)
    ensures Suits(buffers[i], fields[i].coercion) && Holds(buffers[i], Merged(fields[i], batches))
    ensures Rows(Merged(fields[i], batches)) == RowsOf(batches) && OfKind(Merged(fields[i], batches), fields[i].coercion)
  {
    hide Holds, Suits, Merged;
    assert BufferHolds(buffers[i], fields[i], batches);
    MergedRows(fields[i], batches);
  }

  lemma SomeRows(segs: seq<Segment>, groups: seq<seq<Batch>>, fields: seq<FieldSpec>)
    requires SegmentsOf(segs, groups, fields) && segs != []
    ensures RowsOf(Flatten(groups)) > 0
  {
    assert SegmentOf(segs[0], groups[0], fields);
    RowsJoin(groups[0], Flatten(groups[1..]));
  }

  // ----- a whole put ------------------------------------------------------------------------------------

  // What is pending as the last group.
  function Cut(groups: seq<seq<Batch>>, pending: seq<Batch>): seq<seq<Batch>> {
    if pending == [] then groups else groups + [pending]
  }

  lemma CutOf(groups: seq<seq<Batch>>, pending: seq<Batch>, limit: nat)
    requires IsCut(groups, limit) && (forall s :: 0 <= s < |groups| ==> Full(groups[s], limit)) && Open(pending, limit)
    ensures IsCut(Cut(groups, pending), limit) && Flatten(Cut(groups, pending)) == Flatten(groups) + pending
  {
    hide Full, Open;
    if pending == [] {
      NothingMore(Flatten(groups));
    } else {
      FlattenJoin(groups, [pending]);
      FlattenOne(pending);
    }
  }

  // However the batches go on, full groups stay the first ones.
  lemma {:induction false} CutGoesOn(groups: seq<seq<Batch>>, rest: seq<Batch>, limit: nat) returns (all: seq<seq<Batch>>)
    requires IsCut(groups, limit) && (forall s :: 0 <= s < |groups| ==> Full(groups[s], limit)) && limit > 0
    ensures IsCut(all, limit) && groups <= all && Flatten(all) == Flatten(groups) + rest
    decreases |rest|
  {
    hide Full, Open;
    all := groups;
    if rest == [] {
      NothingMore(Flatten(groups));
    } else {
      var n := FirstGroup(rest, limit);
      var g := rest[..n];
      FlattenJoin(groups, [g]);
      FlattenOne(g);
      assert rest == g + rest[n..];
      Assoc(Flatten(groups), g, rest[n..]);
      if n < |rest| {
        all := CutGoesOn(groups + [g], rest[n..], limit);
      } else {
        all := groups + [g];
        NothingMore(Flatten(all));
      }
    }
  }

  lemma FirstGroup(rest: seq<Batch>, limit: nat) returns (n: nat)
    requires rest != [] && limit > 0
    ensures 0 < n <= |rest| && Open(rest[..n], limit) && (n < |rest| ==> Full(rest[..n], limit))
  {
    n := 1;
    assert rest[..1][..0] == [];
    while n < |rest| && RowsOf(rest[..n]) < limit
      invariant 0 < n <= |rest| && Open(rest[..n], limit)
    {
      n := n + 1;
      assert rest[..n][..n - 1] == rest[..n - 1];
    }
  }

  lemma StarvesLater(fields: seq<FieldSpec>, groups: seq<seq<Batch>>, all: seq<seq<Batch>>, s: nat, i: nat)
    requires groups <= all && s < |groups|
    ensures StarvesAt(fields, groups, s, i) <==> StarvesAt(fields, all, s, i)
  {
    hide StaysDense;
    assert all[..s + 1] == groups[..s + 1];
  }

  // No segment closed so far opens on a batch without rows while a column is dense.
  ghost predicate NoneStarved(fields: seq<FieldSpec>, e: Encoder, groups: seq<seq<Batch>>) { e.Host? ==> !StarvesIn(fields, groups) }

  // The buffers say whether the segment in progress starves.
  lemma StarvedIs(session: WriteSession)
    requires session.Valid()
    ensures session.Starved() <==>
            (session.encoder.Host? && session.docsInSegment > 0 && session.pending != [] &&
             exists i: nat :: StarvesAt(session.fields, Cut(session.groups, session.pending), |session.groups|, i))
  {
    hide Holds, Suits, Merged, AllAccept, StaysDense, Full, IsCut, SegmentsOf;
    if session.docsInSegment > 0 {
      CutOf(session.groups, session.pending, session.limit);
      var cut := Cut(session.groups, session.pending);
      assert cut[..|session.groups| + 1] == cut;
      forall i: nat | i < |session.buffers|
        ensures Starves(session.encoder, session.buffers[i]) <==>
                session.encoder.Host? && StarvesAt(session.fields, cut, |session.groups|, i)
      {
        assert BufferHolds(session.buffers[i], session.fields[i], session.pending);
      }
    }
  }

  lemma ClosedOne(fields: seq<FieldSpec>, e: Encoder, groups: seq<seq<Batch>>, g: seq<Batch>)
    requires NoneStarved(fields, e, groups) && (e.Host? ==> forall i: nat :: !StarvesAt(fields, groups + [g], |groups|, i))
    ensures NoneStarved(fields, e, groups + [g])
  {
    hide StaysDense, StarvesAt;
    if e.Host? {
      forall s: nat, i: nat ensures !StarvesAt(fields, groups + [g], s, i) {
        if s < |groups| {
          StarvesLater(fields, groups, groups + [g], s, i);
        } else {
          PastEnd(fields, groups + [g], s, i);
        }
      }
    }
  }

  lemma PastEnd(fields: seq<FieldSpec>, groups: seq<seq<Batch>>, s: nat, i: nat)
    ensures StarvesAt(fields, groups, s, i) ==> s < |groups|
  {
  }

  // The batches make up a put: all are taken, there is some row, and where the host packs,
  // no segment starves.
  ghost predicate Goes(fields: seq<FieldSpec>, e: Encoder, batches: seq<Batch>, limit: nat) {
    && (forall j :: 0 <= j < |batches| ==> AcceptsAll(fields, batches[j])) && RowsOf(batches) > 0
    && forall groups :: IsCut(groups, limit) && Flatten(groups) == batches ==> NoneStarved(fields, e, groups)
  }

  // Where a full segment starves, whatever follows, the put does not go.
  lemma StopsAt(session: WriteSession, batches: seq<Batch>, j: nat)
    requires session.Valid() && session.Starved() && j < |batches| && session.Taken() == batches[..j]
    requires session.docsInSegment >= session.limit
    ensures !Goes(session.fields, session.encoder, batches, session.limit)
  {
    hide StarvesAt, SegmentsOf, BuffersHold, DenseIs;
    StarvedIs(session);
    var cut := Cut(session.groups, session.pending);
    CutOf(session.groups, session.pending, session.limit);
    AllFull(session.groups, session.pending, session.limit);
    var all := CutGoesOn(cut, batches[j..], session.limit);
    assert batches == batches[..j] + batches[j..];
    var i: nat :| StarvesAt(session.fields, cut, |session.groups|, i);
    StarvesLater(session.fields, cut, all, |session.groups|, i);
    assert StarvesIn(session.fields, all);
  }

  // At the end the put goes exactly when the last segment does not starve and there are rows.
  lemma StopsOrGoes(session: WriteSession, batches: seq<Batch>)
    requires session.Valid() && session.Taken() == batches && NoneStarved(session.fields, session.encoder, session.groups)
    requires forall j :: 0 <= j < |batches| ==> AcceptsAll(session.fields, batches[j])
    ensures Goes(session.fields, session.encoder, batches, session.limit) <==> !session.Starved() && RowsOf(batches) > 0
  {
    hide StarvesAt, SegmentsOf, BuffersHold, DenseIs, AcceptsAll;
    StarvedIs(session);
    var cut := Cut(session.groups, session.pending);
    CutOf(session.groups, session.pending, session.limit);
    if session.Starved() {
      var i: nat :| StarvesAt(session.fields, cut, |session.groups|, i);
      assert StarvesIn(session.fields, cut);
    } else {
      if session.pending != [] {
        if session.docsInSegment == 0 {
          NoRowsNoStarving(session.fields, session.groups, session.pending);
        }
        ClosedOne(session.fields, session.encoder, session.groups, session.pending);
      }
      forall groups | IsCut(groups, session.limit) && Flatten(groups) == batches
        ensures NoneStarved(session.fields, session.encoder, groups)
      {
        CutUnique(groups, cut, session.limit);
      }
    }
  }

  lemma NoRowsNoStarving(fields: seq<FieldSpec>, groups: seq<seq<Batch>>, g: seq<Batch>)
    requires RowsOf(g) == 0
    ensures forall i: nat :: !StarvesAt(fields, groups + [g], |groups|, i)
  {
  }

  // The server pushes every batch and finishes; the first error ends it.
  method DoPut(fields: seq<FieldSpec>, segmentMaxDocs: nat, encoder: Encoder, batches: seq<Batch>) returns (r: Result<seq<Segment>>)
    requires forall j :: 0 <= j < |batches| ==> WellFormed(batches[j])
    ensures var limit := if segmentMaxDocs > 0 then segmentMaxDocs else 1;
            && (r.Ok? <==> Goes(fields, encoder, batches, limit))
            && (r.Ok? ==> exists groups, tail :: Delivers(r.value, groups, tail, batches, fields, limit))
  {
    hide AcceptsAll, Goes, IsCut, StarvesIn, Delivers;
    var session := new WriteSession(fields, segmentMaxDocs, encoder);
    NoneYet(fields, encoder);
    var j := 0;
    while j < |batches|
      invariant j <= |batches| && session.Valid() && fresh(session) && session.Taken() == batches[..j]
      invariant session.fields == fields && session.limit == (if segmentMaxDocs > 0 then segmentMaxDocs else 1)
      invariant session.encoder == encoder && NoneStarved(fields, encoder, session.groups)
      invariant forall k :: 0 <= k < j ==> AcceptsAll(fields, batches[k])
    {
      ghost var starves := session.docsInSegment >= session.limit && session.Starved();
      if starves {
        StopsAt(session, batches, j);
      } else {
        NextClosed(session);
      }
      var pushed := session.Push(batches[j]);
      if pushed.Err? {
        if !starves {
          Refused(fields, encoder, batches, session.limit, j);
        }
        return Err(pushed.error);
      }
      j := j + 1;
    }
    assert batches[..j] == batches;
    StopsOrGoes(session, batches);
    r := session.Finish();
  }

  lemma NoneYet(fields: seq<FieldSpec>, e: Encoder)
    ensures NoneStarved(fields, e, [])
  {
  }

  lemma Refused(fields: seq<FieldSpec>, e: Encoder, batches: seq<Batch>, limit: nat, j: nat)
    requires j < |batches| && !AcceptsAll(fields, batches[j])
    ensures !Goes(fields, e, batches, limit)
  {
  }

  // Whether or not a segment is closed next, none that is closed starves.
  lemma NextClosed(session: WriteSession)
    requires session.Valid() && NoneStarved(session.fields, session.encoder, session.groups)
    requires session.docsInSegment < session.limit || !session.Starved()
    ensures session.docsInSegment >= session.limit ==>
              NoneStarved(session.fields, session.encoder, session.groups + [session.pending])
  {
    hide StarvesAt, SegmentsOf, BuffersHold, DenseIs;
    if session.docsInSegment >= session.limit {
      StarvedIs(session);
      var cut := session.groups + [session.pending];
      assert cut == Cut(session.groups, session.pending);
      forall i: nat ensures session.encoder.Host? ==> !StarvesAt(session.fields, cut, |session.groups|, i) {
      }
      ClosedOne(session.fields, session.encoder, session.groups, session.pending);
    }
  }

  // Batches with rows never starve the dense encoder.
  lemma NeverStarved(fields: seq<FieldSpec>, e: Encoder, batches: seq<Batch>, limit: nat)
    requires batches != [] && forall j :: 0 <= j < |batches| ==> batches[j].rows > 0 && AcceptsAll(fields, batches[j])
    ensures Goes(fields, e, batches, limit)
  {
    hide AcceptsAll, StaysDense;
    RowsJoin(batches[..|batches| - 1], [batches[|batches| - 1]]);
    forall groups | IsCut(groups, limit) && Flatten(groups) == batches ensures NoneStarved(fields, e, groups) {
      forall s: nat, i: nat ensures !StarvesAt(fields, groups, s, i) {
        if StarvesAt(fields, groups, s, i) {
          FirstAmong(groups, s);
        }
      }
    }
  }

  lemma {:induction false} FirstAmong(groups: seq<seq<Batch>>, s: nat)
    requires s < |groups| && groups[s] != []
    ensures groups[s][0] in Flatten(groups)
    decreases s
  {
    if s > 0 {
      FirstAmong(groups[1..], s - 1);
    }
  }

  // On the device no put starves.
  lemma DeviceGoes(fields: seq<FieldSpec>, batches: seq<Batch>, limit: nat)
    ensures Goes(fields, Device, batches, limit) <==>
            (forall j :: 0 <= j < |batches| ==> AcceptsAll(fields, batches[j])) && RowsOf(batches) > 0
  {
  }

  // A batch without rows in front of one with a row: the host packs no such put.
  function RowlessFirst(): seq<Batch> {
    [Batch(0, map["n" := Ints([])]), Batch(1, map["n" := Ints([Some(7)])])]
  }

  lemma RowlessFirstStops(limit: nat)
    requires limit > 0
    ensures !Goes([FieldSpec("n", Passthrough)], Host, RowlessFirst(), limit)
    ensures Goes([FieldSpec("n", Passthrough)], Device, RowlessFirst(), limit)
  {
    var fields, all := [FieldSpec("n", Passthrough)], RowlessFirst();
    assert all[..1] == [all[0]] && all[..1][..0] == [] && all[..2] == all;
    assert RowsOf(all[..1]) == 0 && RowsOf(all) == 1;
    DeviceGoes(fields, all, limit);
    FlattenOne(all);
    assert [all][..1] == [all];
    assert IsCut([all], limit);
    assert StarvesAt(fields, [all], 0, 0);
  }
}
