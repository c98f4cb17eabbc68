// Decoding columns as the code does it: offsets by a running rank over the bitmap,
// keys scattered bit by bit, and the pieces put together per column type.
module DecodeCode {
  import opened Bits
  import opened Wire
  import opened Bitmap
  import opened BinaryGcd
  import opened Numeric
  import opened NumericCode
  import opened Monotonic
  import opened MonotonicCode
  import opened Lex
  import opened TermsDict
  import opened TermsCode
  import opened Columns
  import opened SortedTerms
  import SortedNumeric
  import BinaryValues

  ghost predicate Same<T(!new)>(r: Result<T>, spec: Result<T>) {
    match spec case Ok(x) => r == Ok(x) case Err(e) => r == Err(e)
  }

  // ----- offsets ------------------------------------------------------------------------

  lemma {:induction false} RankFails(words: seq<nat>, ends: seq<i64>, missing: Result<i64>, d: nat, n: nat)
    requires d <= n && RankOffsets(words, ends, missing, d).Err?
    ensures RankOffsets(words, ends, missing, n) == RankOffsets(words, ends, missing, d)
    decreases n
  {
    if d < n {
      RankFails(words, ends, missing, d, n - 1);
    }
  }

  // `missing` answers for a rank past the last end: nothing there, or a panic.
  method OffsetsByRank(words: seq<nat>, ends: seq<i64>, missing: Result<i64>, numDocs: nat) returns (r: Result<seq<i32>>)
    ensures Same(r, RankOffsets(words, ends, missing, numDocs))
  {
    hide BitSet;
    var offsets: seq<i32> := [0];
    var rank, d := 0, 0;
    while d < numDocs
      invariant d <= numDocs && rank == Rank(words, d) && RankOffsets(words, ends, missing, d) == Ok(offsets)
    {
      if BitSet(words, d) {
        rank := rank + 1;
      }
      var end := if rank < |ends| then Ok(ends[rank]) else missing;
      if end.Err? {
        RankFails(words, ends, missing, d + 1, numDocs);
        return Err(end.error);
      }
      if !(-TWO_31 <= end.value < TWO_31) {
        RankFails(words, ends, missing, d + 1, numDocs);
        return Err(Corrupt);
      }
      offsets := offsets + [end.value];
      d := d + 1;
    }
    return Ok(offsets);
  }

  lemma {:induction false} DenseFails(ends: seq<i64>, d: nat, n: nat)
    requires d <= n < |ends| && DenseOffsets(ends, d).Err?
    ensures DenseOffsets(ends, n) == DenseOffsets(ends, d)
    decreases n
  {
    if d < n {
      DenseFails(ends, d, n - 1);
    }
  }

  method DenseDocOffsets(ends: seq<i64>, numDocs: nat) returns (r: Result<seq<i32>>)
    requires numDocs < |ends|
    ensures Same(r, DenseOffsets(ends, numDocs))
  {
    var offsets: seq<i32> := [0];
    var d := 0;
    while d < numDocs
      invariant d <= numDocs && DenseOffsets(ends, d) == Ok(offsets)
    {
      var a := ends[d + 1];
      if !(-TWO_31 <= a < TWO_31) {
        DenseFails(ends, d + 1, numDocs);
        return Err(Corrupt);
      }
      offsets := offsets + [a];
      d := d + 1;
    }
    return Ok(offsets);
  }

  method OffsetsOf(numDocs: nat, bitmap: Option<seq<nat>>, ends: seq<i64>, missing: Result<i64>) returns (r: Result<seq<i32>>)
    ensures Same(r, DocOffsets(numDocs, bitmap, ends, missing))
  {
    hide RankOffsets, DenseOffsets;
    match bitmap
    case None =>
      if |ends| != numDocs + 1 {
        return Err(Corrupt);
      }
      r := DenseDocOffsets(ends, numDocs);
    case Some(words) => r := OffsetsByRank(words, ends, missing, numDocs);
  }

  // ----- keys -------------------------------------------------------------------------------

  method KeyList(ords: seq<i64>) returns (r: Result<seq<i64>>)
    ensures Same(r, DenseKeys(ords))
  {
    var keys: seq<i64> := [];
    var i := 0;
    OntoNothing([], DenseKeys(ords));
    assert ords[0..] == ords;
    hide DenseKeys;
    while i < |ords|
      invariant i <= |ords| && Onto(keys, DenseKeys(ords[i..])) == DenseKeys(ords)
    {
      KeyNext(keys, ords[i..]);
      assert ords[i..][1..] == ords[i + 1..];
      if !IsKey(ords[i]) {
        return Err(Corrupt);
      }
      keys := keys + [ords[i]];
      i := i + 1;
    }
    KeysEnd(keys, ords[i..]);
    return Ok(keys);
  }

  lemma KeyNext(keys: seq<i64>, ords: seq<i64>)
    requires ords != []
    ensures Onto(keys, DenseKeys(ords)) ==
            if IsKey(ords[0]) then Onto(keys + [ords[0]], DenseKeys(ords[1..])) else Err(Corrupt)
  {
    if IsKey(ords[0]) && DenseKeys(ords[1..]).Ok? {
      Assoc(keys, [ords[0]], DenseKeys(ords[1..]).value);
    }
  }

  lemma KeysEnd(keys: seq<i64>, ords: seq<i64>)
    requires ords == []
    ensures Onto(keys, DenseKeys(ords)) == Ok(keys)
  {
    assert keys + [] == keys;
  }

  ghost predicate KeysLeft(out: seq<i64>, docs: seq<nat>, ords: seq<i64>, v: nat, goal: Result<seq<i64>>) {
    v <= |ords| && ScatterKeys(out, docs, ords[v..]) == goal
  }

  lemma KeyStep(out: seq<i64>, docs: seq<nat>, ords: seq<i64>, v: nat, goal: Result<seq<i64>>)
    requires docs != [] && KeysLeft(out, docs, ords, v, goal)
    ensures v <= |ords|
    ensures if v == |ords| || docs[0] >= |out| then goal == Err(Panic)
            else if !IsKey(ords[v]) then goal == Err(Corrupt)
            else KeysLeft(out[docs[0] := ords[v]], docs[1..], ords, v + 1, goal)
  {
    if v < |ords| {
      assert ords[v..][1..] == ords[v + 1..];
    }
  }

  // One key per bit of the word.
  method ScatterKeyWord(word: nat, base: nat, out: array<i64>, ords: seq<i64>, v: nat, ghost rest: seq<nat>,
                        ghost goal: Result<seq<i64>>) returns (r: Result<nat>)
    requires KeysLeft(out[..], Ones(word, base) + rest, ords, v, goal)
    modifies out
    ensures match r case Ok(v') => KeysLeft(out[..], rest, ords, v', goal) case Err(e) => goal == Err(e)
  {
    var bits: nat, v': nat := word, v;
    hide KeysLeft, Ones, And;
    while bits != 0
      invariant KeysLeft(out[..], Ones(bits, base) + rest, ords, v', goal)
      decreases bits
    {
      LowestBit(bits, base);
      ghost var docs := Ones(bits, base) + rest;
      var doc := base + TrailingZeros(bits);
      assert docs[0] == doc && docs[1..] == Ones(And(bits, bits - 1), base) + rest;
      KeyStep(out[..], docs, ords, v', goal);
      if v' == |ords| || doc >= out.Length {
        return Err(Panic);
      }
      if !IsKey(ords[v']) {
        return Err(Corrupt);
      }
      ghost var before := out[..];
      out[doc] := ords[v'];
      assert out[..] == before[doc := ords[v']];
      v' := v' + 1;
      bits := And(bits, bits - 1);
    }
    NoOnes(base);
    assert [] + rest == rest;
    return Ok(v');
  }

  method ScatterKeyList(bitmap: seq<nat>, numDocs: nat, ords: seq<i64>) returns (r: Result<seq<i64>>)
    ensures Same(r, ScatterKeys(Repeat(0, numDocs), OnesOf(bitmap, 0), ords))
  {
    hide ScatterKeys, OnesOf, Repeat;
    var out := new i64[numDocs](_ => 0);
    ghost var goal := ScatterKeys(Repeat(0, numDocs), OnesOf(bitmap, 0), ords);
    AllZero(out[..]);
    assert bitmap[0..] == bitmap && ords[0..] == ords;
    var v := 0;
    for w := 0 to |bitmap|
      invariant KeysLeft(out[..], OnesOf(bitmap[w..], 64 * w), ords, v, goal)
    {
      OnesOfCons(bitmap[w..], 64 * w);
      assert bitmap[w..][1..] == bitmap[w + 1..];
      v :- ScatterKeyWord(bitmap[w], 64 * w, out, ords, v, OnesOf(bitmap[w + 1..], 64 * w + 64), goal);
    }
    NoOnes(64 * |bitmap|);
    assert bitmap[|bitmap|..] == [];
    KeysDone(out[..], ords, v, goal);
    return Ok(out[..]);
  }

  lemma KeysDone(out: seq<i64>, ords: seq<i64>, v: nat, goal: Result<seq<i64>>)
    requires KeysLeft(out, [], ords, v, goal)
    ensures goal == Ok(out)
  {
  }

  // ----- columns ---------------------------------------------------------------------------------

  method DecodeMultiNumeric(values: DecodePlan, addresses: AddressesPlan, dvd: seq<byte>, p: Predictor)
    returns (r: Result<ListColumn<i64>>)
    ensures Same(r, SortedNumeric.DecodeMany(values, addresses, dvd, p))
  {
    hide DecodeValues, DecodeAddresses, CoverageBitmap, DocOffsets;
    var items :- DecodeValueStream(values, dvd);
    var ends :- DecodeAddressPlan(addresses, dvd, p);
    var bitmap :- DecodeBitmap(values.coverage, dvd);
    var offsets :- OffsetsOf(values.coverage.numDocs, bitmap, ends, Ok(0));
    return Ok(ListColumn(offsets, items, bitmap));
  }

  method EqualEnds(n: nat, length: nat) returns (ends: seq<i64>)
    ensures ends == BinaryValues.FixedEnds(n, length)
  {
    hide Wrap;
    ends := [0];
    var i := 0;
    while i < n
      invariant i <= n && ends == BinaryValues.FixedEnds(i, length)
    {
      i := i + 1;
      ends := ends + [Wrap(Span(length, i))];
    }
  }

  method DecodeBinary(plan: BinaryValues.BinaryPlan, dvd: seq<byte>, p: Predictor) returns (r: Result<ListColumn<byte>>)
    ensures Same(r, BinaryValues.Decode(plan, dvd, p))
  {
    hide DecodeAddresses, CoverageBitmap, DocOffsets, BinaryValues.FixedEnds;
    if plan.dataOffset + plan.dataLen > |dvd| {
      return Err(Corrupt);
    }
    var region := dvd[plan.dataOffset..plan.dataOffset + plan.dataLen];
    var bitmap :- DecodeBitmap(plan.coverage, dvd);
    var ends: seq<i64>;
    match plan.addresses {
      case None => ends := EqualEnds(plan.docCount, plan.minLength);
      case Some(a) => ends :- DecodeAddressPlan(a, dvd, p);
    }
    if |ends| != plan.docCount + 1 || (bitmap.None? && plan.docCount != plan.coverage.numDocs) {
      return Err(Corrupt);
    }
    var offsets :- OffsetsOf(plan.coverage.numDocs, bitmap, ends, Err(Panic));
    return Ok(ListColumn(offsets, region, bitmap));
  }

  method DecodeSortedColumn(plan: SortedPlan, dvd: seq<byte>, c: Codec) returns (r: Result<DictColumn>)
    ensures Same(r, DecodeSorted(plan, dvd, c))
  {
    hide Materialize, PushAll, CoverageBitmap, DecodeValues, DenseKeys, ScatterKeys, Repeat, OnesOf;
    var dict :- MaterializeTerms(plan.terms, dvd, c.lz4, c.line);
    var bitmap :- DecodeBitmap(plan.ords.coverage, dvd);
    var ords :- DecodeValueStream(plan.ords, dvd);
    var n := plan.ords.coverage.numDocs;
    match bitmap
    case None =>
      if |ords| != n {
        return Err(Corrupt);
      }
      var keys :- KeyList(ords);
      return Ok(DictColumn(Column(keys, None), dict));
    case Some(words) =>
      var keys :- ScatterKeyList(words, n, ords);
      return Ok(DictColumn(Column(keys, bitmap), dict));
  }

  method DecodeSetColumn(plan: SortedPlan, addresses: AddressesPlan, dvd: seq<byte>, c: Codec)
    returns (r: Result<SetColumn>)
    ensures Same(r, DecodeSet(plan, addresses, dvd, c))
  {
    hide Materialize, PushAll, CoverageBitmap, DecodeValues, DecodeAddresses, DenseKeys, DocOffsets;
    var dict :- MaterializeTerms(plan.terms, dvd, c.lz4, c.line);
    var bitmap :- DecodeBitmap(plan.ords.coverage, dvd);
    var ords :- DecodeValueStream(plan.ords, dvd);
    var ends :- DecodeAddressPlan(addresses, dvd, c.line);
    var offsets :- OffsetsOf(plan.ords.coverage.numDocs, bitmap, ends, Ok(0));
    var keys :- KeyList(ords);
    return Ok(SetColumn(ListColumn(offsets, keys, bitmap), dict));
  }
}
