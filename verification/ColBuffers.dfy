// The columns a write session gathers for the segment in progress: documents and
// values, or -- as long as a canonical integer column has no null -- just the batches
// as they came. A null makes that lane change into documents and values on the spot.
module ColBuffers {
  import opened Bits
  import opened Wire
  import opened Bitmap
  import opened StatsPass
  import opened Lex
  import opened Disi

  // A column of a batch, after coercion; None for null. A vector is its components' bits.
  datatype Column =
    | Ints(ints: seq<Option<i64>>)
    | Texts(texts: seq<Option<Term>>)
    | Blobs(blobs: seq<Option<seq<byte>>>)
    | IntLists(intLists: seq<Option<seq<i64>>>)
    | TextLists(textLists: seq<Option<seq<Term>>>)
    | Vectors(vectors: seq<Option<seq<nat>>>)

  datatype Coercion = Passthrough | ToInt | Text | ByteString | MultiInt | MultiText | VectorF32

  datatype ColBuffer =
    | Numeric(docs: seq<nat>, values: seq<i64>)
    | NumericDense(chunks: seq<seq<i64>>, len: nat)
    | Vector(docs: seq<nat>, data: seq<nat>)
    | Sorted(docs: seq<nat>, terms: seq<Term>)
    | Bytes(docs: seq<nat>, strings: seq<seq<byte>>)
    | MultiNumeric(docs: seq<nat>, lists: seq<seq<i64>>)
    | MultiTerms(docs: seq<nat>, sets: seq<seq<Term>>)

  function ForCoercion(k: Coercion): ColBuffer {
    match k
    case Passthrough => NumericDense([], 0)
    case ToInt => Numeric([], [])
    case Text => Sorted([], [])
    case ByteString => Bytes([], [])
    case MultiInt => MultiNumeric([], [])
    case MultiText => MultiTerms([], [])
    case VectorF32 => Vector([], [])
  }

  // The lane stays what it is, also after a demotion.
  function Cleared(b: ColBuffer): ColBuffer {
    match b
    case Numeric(_, _) => Numeric([], [])
    case NumericDense(_, _) => NumericDense([], 0)
    case Vector(_, _) => Vector([], [])
    case Sorted(_, _) => Sorted([], [])
    case Bytes(_, _) => Bytes([], [])
    case MultiNumeric(_, _) => MultiNumeric([], [])
    case MultiTerms(_, _) => MultiTerms([], [])
  }

  predicate Suits(b: ColBuffer, k: Coercion) {
    match k
    case Passthrough => b.NumericDense? || b.Numeric?
    case ToInt => b.Numeric?
    case Text => b.Sorted?
    case ByteString => b.Bytes?
    case MultiInt => b.MultiNumeric?
    case MultiText => b.MultiTerms?
    case VectorF32 => b.Vector?
  }

  // ----- columns as documents and values -----------------------------------------------

  // The documents with a value, the first row being document `base`.
  function Present<T>(col: seq<Option<T>>, base: nat): seq<nat> {
    if col == [] then []
    else Present(col[..|col| - 1], base) + if col[|col| - 1].Some? then [base + |col| - 1] else []
  }

  function Values<T>(col: seq<Option<T>>): seq<T> {
    if col == [] then []
    else Values(col[..|col| - 1]) + match col[|col| - 1] case Some(x) => [x] case None => []
  }

  function AllSome<T>(v: seq<T>): (col: seq<Option<T>>)
    ensures |col| == |v| && forall i :: 0 <= i < |v| ==> col[i] == Some(v[i])
  {
    seq(|v|, i requires 0 <= i < |v| => Some(v[i]))
  }

  // An empty list counts as no value.
  function NonEmpty<T>(col: seq<Option<seq<T>>>): (r: seq<Option<seq<T>>>)
    ensures |r| == |col| && forall i :: 0 <= i < |col| ==> r[i] == if col[i] == Some([]) then None else col[i]
  {
    seq(|col|, i requires 0 <= i < |col| => Filled(col[i]))
  }

  function Filled<T>(x: Option<seq<T>>): Option<seq<T>> {
    if x.Some? && |x.value| == 0 then None else x
  }

  predicate NoNulls<T(==)>(col: seq<Option<T>>) { forall i :: 0 <= i < |col| ==> col[i] != None }

  lemma {:induction false} PresentJoin<T>(a: seq<Option<T>>, b: seq<Option<T>>, base: nat)
    ensures Present(a + b, base) == Present(a, base) + Present(b, base + |a|)
    ensures Values(a + b) == Values(a) + Values(b)
    decreases |b|
  {
    if b == [] {
      assert a + b == a;
    } else {
      assert (a + b)[..|a + b| - 1] == a + b[..|b| - 1];
      PresentJoin(a, b[..|b| - 1], base);
    }
  }

  lemma {:induction false} PresentAll<T>(v: seq<T>, base: nat)
    ensures Present(AllSome(v), base) == Range(base, |v|) && Values(AllSome(v)) == v
    decreases |v|
  {
    if v != [] {
      var most := v[..|v| - 1];
      assert AllSome(v)[..|v| - 1] == AllSome(most);
      PresentAll(most, base);
      assert v == most + [v[|v| - 1]];
    }
  }

  lemma {:induction false} FullColumn<T>(col: seq<Option<T>>)
    requires forall i :: 0 <= i < |col| ==> col[i] != None
    ensures col == AllSome(Values(col))
    decreases |col|
  {
    if col != [] {
      FullColumn(col[..|col| - 1]);
      assert col == col[..|col| - 1] + [col[|col| - 1]];
    }
  }

  // Row d has a value exactly if its document is listed, and then that value.
  ghost predicate Lists<T>(docs: seq<nat>, values: seq<T>, col: seq<Option<T>>, base: nat) {
    && |docs| == |values|
    && (forall i :: 0 <= i < |docs| ==> base <= docs[i] < base + |col| && col[docs[i] - base] == Some(values[i]))
    && (forall d: nat :: d < |col| && col[d].Some? ==> base + d in docs)
  }

  lemma ListsMore<T>(docs: seq<nat>, values: seq<T>, col: seq<Option<T>>, base: nat, x: Option<T>)
    requires Lists(docs, values, col, base)
    ensures match x
            case Some(v) => Lists(docs + [base + |col|], values + [v], col + [x], base)
            case None => Lists(docs, values, col + [x], base)
  {
  }

  lemma {:induction false} PresentIs<T>(col: seq<Option<T>>, base: nat)
    ensures Lists(Present(col, base), Values(col), col, base)
    decreases |col|
  {
    hide Lists;
    if col == [] {
      NothingListed<T>(base);
    } else {
      var most := col[..|col| - 1];
      PresentIs(most, base);
      ListsMore(Present(most, base), Values(most), most, base, col[|col| - 1]);
      assert col == most + [col[|col| - 1]];
      assert col[|col| - 1] == None ==> Present(col, base) == Present(most, base) && Values(col) == Values(most);
    }
  }

  lemma NothingListed<T>(base: nat)
    ensures Lists<T>([], [], [], base)
  {
  }

  lemma {:induction false} PresentAscends<T>(col: seq<Option<T>>, base: nat)
    ensures Ascending(Present(col, base)) && AllBelow(Present(col, base), base + |col|)
    decreases |col|
  {
    if col != [] {
      PresentAscends(col[..|col| - 1], base);
    }
  }

  // ----- what a buffer holds -----------------------------------------------------------------

  function Rows(c: Column): nat {
    match c
    case Ints(x) => |x|
    case Texts(x) => |x|
    case Blobs(x) => |x|
    case IntLists(x) => |x|
    case TextLists(x) => |x|
    case Vectors(x) => |x|
  }

  function Normal(c: Column): Column {
    match c
    case IntLists(x) => IntLists(NonEmpty(x))
    case TextLists(x) => TextLists(NonEmpty(x))
    case _ => c
  }

  function Joined(a: Column, b: Column): Column {
    match (a, b)
    case (Ints(x), Ints(y)) => Ints(x + y)
    case (Texts(x), Texts(y)) => Texts(x + y)
    case (Blobs(x), Blobs(y)) => Blobs(x + y)
    case (IntLists(x), IntLists(y)) => IntLists(x + y)
    case (TextLists(x), TextLists(y)) => TextLists(x + y)
    case (Vectors(x), Vectors(y)) => Vectors(x + y)
    case _ => a
  }

  function EmptyColumn(k: Coercion): Column {
    match k
    case Passthrough => Ints([])
    case ToInt => Ints([])
    case Text => Texts([])
    case ByteString => Blobs([])
    case MultiInt => IntLists([])
    case MultiText => TextLists([])
    case VectorF32 => Vectors([])
  }

  predicate OfKind(c: Column, k: Coercion) {
    match k
    case Passthrough => c.Ints?
    case ToInt => c.Ints?
    case Text => c.Texts?
    case ByteString => c.Blobs?
    case MultiInt => c.IntLists?
    case MultiText => c.TextLists?
    case VectorF32 => c.Vectors?
  }

  ghost predicate Holds(b: ColBuffer, c: Column) {
    match b
    case Numeric(docs, values) => c.Ints? && docs == Present(c.ints, 0) && values == Values(c.ints)
    case NumericDense(chunks, len) => c.Ints? && c.ints == AllSome(Flatten(chunks)) && len == |c.ints|
    case Vector(docs, data) => c.Vectors? && docs == Present(c.vectors, 0) && data == Flatten(Values(c.vectors))
    case Sorted(docs, terms) => c.Texts? && docs == Present(c.texts, 0) && terms == Values(c.texts)
    case Bytes(docs, strings) => c.Blobs? && docs == Present(c.blobs, 0) && strings == Values(c.blobs)
    case MultiNumeric(docs, lists) => c.IntLists? && docs == Present(c.intLists, 0) && lists == Values(c.intLists)
    case MultiTerms(docs, sets) => c.TextLists? && docs == Present(c.textLists, 0) && sets == Values(c.textLists)
  }

  lemma EmptyHolds(k: Coercion)
    ensures Holds(ForCoercion(k), EmptyColumn(k)) && Suits(ForCoercion(k), k)
  {
  }

  lemma ClearedHolds(b: ColBuffer, k: Coercion)
    requires Suits(b, k)
    ensures Holds(Cleared(b), EmptyColumn(k)) && Suits(Cleared(b), k)
  {
  }

  // ----- appending a column --------------------------------------------------------------------

  method PushValid<T>(docs: seq<nat>, values: seq<T>, base: nat, col: seq<Option<T>>)
    returns (docs': seq<nat>, values': seq<T>)
    ensures docs' == docs + Present(col, base) && values' == values + Values(col)
  {
    docs', values' := docs, values;
    var i := 0;
    assert col[..0] == [];
    while i < |col|
      invariant i <= |col| && docs' == docs + Present(col[..i], base) && values' == values + Values(col[..i])
    {
      assert col[..i + 1][..i] == col[..i];
      if col[i].Some? {
        docs', values' := docs' + [base + i], values' + [col[i].value];
      }
      i := i + 1;
    }
    assert col[..i] == col;
  }

  method PushLists<T>(docs: seq<nat>, lists: seq<seq<T>>, base: nat, col: seq<Option<seq<T>>>)
    returns (docs': seq<nat>, lists': seq<seq<T>>)
    ensures docs' == docs + Present(NonEmpty(col), base) && lists' == lists + Values(NonEmpty(col))
  {
    docs', lists' := docs, lists;
    var i := 0;
    ghost var full := NonEmpty(col);
    assert full[..0] == [];
    while i < |col|
      invariant i <= |col| && docs' == docs + Present(full[..i], base) && lists' == lists + Values(full[..i])
    {
      assert full[..i + 1][..i] == full[..i];
      if col[i].Some? && |col[i].value| > 0 {
        docs', lists' := docs' + [base + i], lists' + [col[i].value];
      }
      i := i + 1;
    }
    assert full[..i] == full;
  }

  method PushVectors(docs: seq<nat>, data: seq<nat>, base: nat, col: seq<Option<seq<nat>>>)
    returns (docs': seq<nat>, data': seq<nat>)
    ensures docs' == docs + Present(col, base) && data' == data + Flatten(Values(col))
  {
    docs', data' := docs, data;
    var i := 0;
    assert col[..0] == [];
    FlattenNone<nat>();
    hide Flatten;
    while i < |col|
      invariant i <= |col| && docs' == docs + Present(col[..i], base) && data' == data + Flatten(Values(col[..i]))
    {
      assert col[..i + 1][..i] == col[..i];
      if col[i].Some? {
        FlattenJoin(Values(col[..i]), [col[i].value]);
        FlattenOne(col[i].value);
        assert Values(col[..i + 1]) == Values(col[..i]) + [col[i].value];
        Assoc(data, Flatten(Values(col[..i])), col[i].value);
        docs', data' := docs' + [base + i], data' + col[i].value;
      } else {
        assert Values(col[..i + 1]) == Values(col[..i]) && Present(col[..i + 1], base) == Present(col[..i], base);
      }
      i := i + 1;
    }
    assert col[..i] == col;
  }

  lemma {:induction false} FlattenJoin<T>(a: seq<seq<T>>, b: seq<seq<T>>)
    ensures Flatten(a + b) == Flatten(a) + Flatten(b)
    decreases |a|
  {
    if a == [] {
      assert a + b == b;
    } else {
      assert (a + b)[1..] == a[1..] + b;
      FlattenJoin(a[1..], b);
    }
  }

  lemma FlattenOne<T>(x: seq<T>)
    ensures Flatten([x]) == x
  {
    assert [x][1..] == [];
    assert x + [] == x;
  }

  // The chunks so far, row by row, with the documents 0..len.
  method Replay(chunks: seq<seq<i64>>, len: nat) returns (docs: seq<nat>, values: seq<i64>)
    requires len == |Flatten(chunks)|
    ensures docs == Present(AllSome(Flatten(chunks)), 0) && values == Values(AllSome(Flatten(chunks)))
  {
    hide Flatten;
    docs, values := Range(0, len), [];
    PresentAll(Flatten(chunks), 0);
    assert chunks[..0] == [];
    FlattenNone<i64>();
    var i := 0;
    while i < |chunks|
      invariant i <= |chunks| && values == Flatten(chunks[..i])
    {
      FlattenSnoc(chunks, i);
      values := values + chunks[i];
      i := i + 1;
    }
    assert chunks[..i] == chunks;
  }

  lemma FlattenNone<T>()
    ensures Flatten<T>([]) == []
  {
  }

  // One column of a batch into its buffer. A column of the wrong type panics, except for
  // vectors, where it is refused.
  method AppendColumn(col: Column, k: Coercion, base: nat, b: ColBuffer, ghost had: Column) returns (r: Result<ColBuffer>)
    requires Suits(b, k) && Holds(b, had) && Rows(had) == base
    ensures r.Ok? <==> OfKind(col, k)
    ensures r.Ok? ==> Suits(r.value, k) && Holds(r.value, Joined(had, Normal(col)))
    ensures r.Ok? ==> (r.value.NumericDense? <==> b.NumericDense? && NoNulls(col.ints))
    ensures r.Ok? && r.value.NumericDense? ==> r.value.chunks == b.chunks + [Values(col.ints)]
  {
    hide Flatten, Present, Values, AllSome, NonEmpty;
    if !OfKind(col, k) {
      return Err(if k.VectorF32? then Invalid else Panic);
    }
    match b
    case NumericDense(chunks, len) =>
      if NoNulls(col.ints) {
        DenseMore(chunks, len, had, col.ints);
        return Ok(NumericDense(chunks + [Values(col.ints)], len + |col.ints|));
      }
      var docs, values := Replay(chunks, len);
      docs, values := PushValid(docs, values, base, col.ints);
      PresentJoin(had.ints, col.ints, 0);
      return Ok(Numeric(docs, values));
    case Vector(docs, data) =>
      var docs', data' := PushVectors(docs, data, base, col.vectors);
      PresentJoin(had.vectors, col.vectors, 0);
      FlattenJoin(Values(had.vectors), Values(col.vectors));
      return Ok(Vector(docs', data'));
    case Sorted(docs, terms) =>
      var docs', terms' := PushValid(docs, terms, base, col.texts);
      PresentJoin(had.texts, col.texts, 0);
      return Ok(Sorted(docs', terms'));
    case Bytes(docs, strings) =>
      var docs', strings' := PushValid(docs, strings, base, col.blobs);
      PresentJoin(had.blobs, col.blobs, 0);
      return Ok(Bytes(docs', strings'));
    case MultiNumeric(docs, lists) =>
      var docs', lists' := PushLists(docs, lists, base, col.intLists);
      PresentJoin(had.intLists, NonEmpty(col.intLists), 0);
      return Ok(MultiNumeric(docs', lists'));
    case MultiTerms(docs, sets) =>
      var docs', sets' := PushLists(docs, sets, base, col.textLists);
      PresentJoin(had.textLists, NonEmpty(col.textLists), 0);
      return Ok(MultiTerms(docs', sets'));
    case Numeric(docs, values) =>
      PresentJoin(had.ints, col.ints, 0);
      if k.Passthrough? && NoNulls(col.ints) {
        FullColumn(col.ints);
        PresentAll(Values(col.ints), base);
        return Ok(Numeric(docs + Range(base, |col.ints|), values + Values(col.ints)));
      }
      var docs', values' := PushValid(docs, values, base, col.ints);
      return Ok(Numeric(docs', values'));
  }

  lemma DenseMore(chunks: seq<seq<i64>>, len: nat, had: Column, col: seq<Option<i64>>)
    requires Holds(NumericDense(chunks, len), had) && NoNulls(col)
    ensures Holds(NumericDense(chunks + [Values(col)], len + |col|), Joined(had, Ints(col)))
  {
    hide Flatten, AllSome;
    FullColumn(col);
    FlattenJoin(chunks, [Values(col)]);
    FlattenOne(Values(col));
    AllSomeJoin(Flatten(chunks), Values(col));
  }

  lemma AllSomeJoin<T>(a: seq<T>, b: seq<T>)
    ensures AllSome(a + b) == AllSome(a) + AllSome(b)
  {
  }

  // Demotion changes the form of a buffer, not the column it holds.
  lemma DemotionKeeps(chunks: seq<seq<i64>>, len: nat, c: Column)
    requires Holds(NumericDense(chunks, len), c)
    ensures Holds(Numeric(Range(0, len), Flatten(chunks)), c)
  {
    hide Flatten;
    PresentAll(Flatten(chunks), 0);
  }
}
