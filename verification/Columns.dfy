// Variable-length columns: one flat run of items and, per doc, where its slice
// ends. Slices belong to docs with a value; a null doc has an empty one, found by
// counting the set bits before it.
module Columns {
  import opened Bits
  import opened Wire
  import opened Bitmap
  import opened StatsPass
  import opened Numeric
  import opened NumericWrite
  import Disi

  // An Arrow list or binary column.
  datatype ListColumn<T> = ListColumn(offsets: seq<i32>, items: seq<T>, validity: Option<seq<nat>>)

  // How many docs below d have a value.
  function Rank(words: seq<nat>, d: nat): (r: nat)
    ensures r <= d
  {
    if d == 0 then 0 else Rank(words, d - 1) + (if BitSet(words, d - 1) then 1 else 0)
  }

  // The slice ends of the docs below d, given where each valued doc's slice ends;
  // `missing` is what a rank past the ends gives.
  function RankOffsets(words: seq<nat>, ends: seq<i64>, missing: Result<i64>, d: nat): Result<seq<i32>>
  {
    if d == 0 then Ok([0])
    else
      var before :- RankOffsets(words, ends, missing, d - 1);
      var end :- if Rank(words, d) < |ends| then Ok(ends[Rank(words, d)]) else missing;
      if !(-TWO_31 <= end < TWO_31) then Err(Corrupt) else Ok(before + [end])
  }

  function DenseOffsets(ends: seq<i64>, d: nat): Result<seq<i32>>
    requires d < |ends| || d == 0
  {
    if d == 0 then Ok([0])
    else
      var before :- DenseOffsets(ends, d - 1);
      if !(-TWO_31 <= ends[d] < TWO_31) then Err(Corrupt) else Ok(before + [ends[d]])
  }

  function DocOffsets(numDocs: nat, bitmap: Option<seq<nat>>, ends: seq<i64>, missing: Result<i64>): Result<seq<i32>> {
    match bitmap
    case None => if |ends| != numDocs + 1 then Err(Corrupt) else DenseOffsets(ends, numDocs)
    case Some(words) => RankOffsets(words, ends, missing, numDocs)
  }

  // The slice of doc d; None for null.
  function Slice<T>(col: ListColumn<T>, d: nat): Option<seq<T>> {
    if d + 1 >= |col.offsets| then None
    else if col.validity.Some? && !BitSet(col.validity.value, d) then None
    else if !(0 <= col.offsets[d] <= col.offsets[d + 1] <= |col.items|) then None
    else Some(col.items[col.offsets[d]..col.offsets[d + 1]])
  }

  ghost predicate IsListColumn<T>(r: Result<ListColumn<T>>, docs: seq<nat>, lists: seq<seq<T>>, maxDoc: nat) {
    match r
    case Err(_) => false
    case Ok(col) =>
      && |col.offsets| == maxDoc + 1 && |docs| == |lists|
      && (forall i :: 0 <= i < |docs| ==> Slice(col, docs[i]) == Some(lists[i]))
      && (forall d: nat :: d < maxDoc && d !in docs ==> Slice(col, d) == None)
  }

  // Where each list's items end in the concatenation, after `from` others.
  function Ends<T>(lists: seq<seq<T>>, from: nat): (s: seq<i64>)
    ensures |s| == |lists| + 1
  {
    if lists == [] then [Wrap(from)] else [Wrap(from)] + Ends(lists[1..], from + |lists[0]|)
  }

  lemma {:induction false} EndsAre<T>(lists: seq<seq<T>>, from: nat, i: nat)
    requires i <= |lists| && from + |Flatten(lists)| < TWO_63
    ensures |Flatten(lists[..i])| <= |Flatten(lists)|
    ensures Ends(lists, from)[i] == from + |Flatten(lists[..i])|
  {
    if i > 0 {
      assert lists[..i][1..] == lists[1..][..i - 1];
      EndsAre(lists[1..], from + |lists[0]|, i - 1);
    } else {
      assert lists[..0] == [];
    }
  }

  // List i is the slice between its neighbours' ends.
  lemma {:induction false} FlattenSlice<T>(lists: seq<seq<T>>, i: nat)
    requires i < |lists|
    ensures |Flatten(lists[..i])| + |lists[i]| == |Flatten(lists[..i + 1])| <= |Flatten(lists)|
    ensures Flatten(lists)[|Flatten(lists[..i])|..|Flatten(lists[..i + 1])|] == lists[i]
  {
    if i > 0 {
      assert lists[..i][1..] == lists[1..][..i - 1];
      assert lists[..i + 1][1..] == lists[1..][..i];
      FlattenSlice(lists[1..], i - 1);
    } else {
      assert lists[..1][1..] == [] && lists[..0] == [];
    }
  }

  // ----- ranks ------------------------------------------------------------------------

  // How many of the ascending docs lie below d.
  function CountBelow(docs: seq<nat>, d: nat): (n: nat)
    ensures n <= |docs|
  {
    if docs == [] || docs[0] >= d then 0 else 1 + CountBelow(docs[1..], d)
  }

  lemma {:induction false} CountBelowStep(docs: seq<nat>, d: nat)
    requires Ascending(docs)
    ensures CountBelow(docs, d + 1) == CountBelow(docs, d) + (if d in docs then 1 else 0)
  {
    if docs != [] {
      CountBelowStep(docs[1..], d);
      if docs[0] >= d {
        assert d in docs ==> docs[0] == d;
        assert docs[1..] != [] ==> docs[0] < docs[1..][0];
        if docs[0] > d {
          assert forall i :: 0 <= i < |docs| ==> docs[i] > d;
        } else {
          assert CountBelow(docs[1..], d + 1) == 0;
        }
      } else {
        assert d in docs <==> d in docs[1..];
      }
    }
  }

  lemma {:induction false} CountBelowAt(docs: seq<nat>, i: nat)
    requires Ascending(docs) && i < |docs|
    ensures CountBelow(docs, docs[i]) == i
  {
    if i > 0 {
      CountBelowAt(docs[1..], i - 1);
      assert docs[0] < docs[i];
    }
  }

  lemma {:induction false} RankIsCount(words: seq<nat>, docs: seq<nat>, d: nat)
    requires Ascending(docs) && forall k: nat :: BitSet(words, k) <==> k in docs
    ensures Rank(words, d) == CountBelow(docs, d)
  {
    hide BitSet;
    if d > 0 {
      RankIsCount(words, docs, d - 1);
      CountBelowStep(docs, d - 1);
    }
  }

  // ----- offsets -----------------------------------------------------------------------

  // Offsets by rank, as far as doc d.
  ghost predicate Ranked(r: Result<seq<i32>>, docs: seq<nat>, ends: seq<i64>, d: nat) {
    match r
    case Err(_) => false
    case Ok(o) => |o| == d + 1 && o[0] == 0 &&
                  forall k: nat :: 1 <= k <= d ==> CountBelow(docs, k) < |ends| && o[k] == ends[CountBelow(docs, k)]
  }

  lemma {:induction false} OffsetsByRank(words: seq<nat>, docs: seq<nat>, ends: seq<i64>, missing: Result<i64>, d: nat)
    requires Ascending(docs) && forall k: nat :: BitSet(words, k) <==> k in docs
    requires |ends| == |docs| + 1 && forall i :: 0 <= i < |ends| ==> 0 <= ends[i] < TWO_31
    ensures Ranked(RankOffsets(words, ends, missing, d), docs, ends, d)
  {
    hide BitSet, Rank, CountBelow;
    if d > 0 {
      OffsetsByRank(words, docs, ends, missing, d - 1);
      RankIsCount(words, docs, d);
      CountBelowBound(docs, d);
    }
  }

  lemma CountBelowBound(docs: seq<nat>, d: nat)
    ensures CountBelow(docs, d) <= |docs|
  {
  }

  lemma {:induction false} OffsetsDense(ends: seq<i64>, d: nat)
    requires d < |ends| && forall i :: 0 <= i < |ends| ==> 0 <= ends[i] < TWO_31
    ensures var r := DenseOffsets(ends, d);
            r.Ok? && |r.value| == d + 1 && r.value[0] == 0 && forall k :: 1 <= k <= d ==> r.value[k] == ends[k]
  {
    if d > 0 {
      OffsetsDense(ends, d - 1);
    }
  }

  // ----- columns -------------------------------------------------------------------------

  ghost predicate FitsI32<T>(lists: seq<seq<T>>) {
    |Flatten(lists)| < TWO_31
  }

  lemma EndsFit<T>(lists: seq<seq<T>>)
    requires FitsI32(lists)
    ensures forall i :: 0 <= i <= |lists| ==> 0 <= Ends(lists, 0)[i] < TWO_31
    ensures Ends(lists, 0)[0] == 0
  {
    forall i | 0 <= i <= |lists| ensures 0 <= Ends(lists, 0)[i] < TWO_31 {
      EndsAre(lists, 0, i);
    }
    EndsAre(lists, 0, 0);
    assert lists[..0] == [];
  }

  // From coverage and ends, exactly each doc's list.
  lemma ListColumnRoundTrip<T>(docs: seq<nat>, lists: seq<seq<T>>, maxDoc: nat, bitmap: Option<seq<nat>>,
                               missing: Result<i64>)
    requires Ascending(docs) && AllBelow(docs, maxDoc) && |docs| == |lists| && FitsI32(lists)
    requires Covers(Ok(bitmap), docs, maxDoc)
    ensures match DocOffsets(maxDoc, bitmap, Ends(lists, 0), missing)
            case Ok(o) => IsListColumn(Ok(ListColumn(o, Flatten(lists), bitmap)), docs, lists, maxDoc)
            case Err(_) => false
  {
    EndsFit(lists);
    if bitmap.Some? {
      SparseLists(docs, lists, maxDoc, bitmap.value, missing);
    } else {
      DenseLists(docs, lists, maxDoc, missing);
    }
  }

  lemma DenseLists<T>(docs: seq<nat>, lists: seq<seq<T>>, maxDoc: nat, missing: Result<i64>)
    requires docs == Disi.Range(0, maxDoc) && |docs| == |lists| && FitsI32(lists)
    ensures match DocOffsets(maxDoc, None, Ends(lists, 0), missing)
            case Ok(o) => IsListColumn(Ok(ListColumn(o, Flatten(lists), None)), docs, lists, maxDoc)
            case Err(_) => false
  {
    hide Ends, Flatten;
    EndsFit(lists);
    OffsetsDense(Ends(lists, 0), maxDoc);
    var o := DenseOffsets(Ends(lists, 0), maxDoc).value;
    forall i | 0 <= i < |docs| ensures Slice(ListColumn(o, Flatten(lists), None), docs[i]) == Some(lists[i]) {
      SliceAt(lists, i);
      assert docs[i] == i && o[i] == Ends(lists, 0)[i] && o[i + 1] == Ends(lists, 0)[i + 1];
    }
    forall d: nat | d < maxDoc ensures d in docs {
      assert docs[d] == d;
    }
  }

  lemma SliceAt<T>(lists: seq<seq<T>>, i: nat)
    requires i < |lists| && FitsI32(lists)
    ensures var e := Ends(lists, 0);
            0 <= e[i] <= e[i + 1] <= |Flatten(lists)| && Flatten(lists)[e[i]..e[i + 1]] == lists[i]
  {
    hide Ends, Flatten;
    EndsAre(lists, 0, i);
    EndsAre(lists, 0, i + 1);
    FlattenSlice(lists, i);
  }

  lemma SparseLists<T>(docs: seq<nat>, lists: seq<seq<T>>, maxDoc: nat, words: seq<nat>, missing: Result<i64>)
    requires Ascending(docs) && AllBelow(docs, maxDoc) && |docs| == |lists| && FitsI32(lists)
    requires Disi.IsBitmap(words, docs, maxDoc)
    ensures match DocOffsets(maxDoc, Some(words), Ends(lists, 0), missing)
            case Ok(o) => IsListColumn(Ok(ListColumn(o, Flatten(lists), Some(words))), docs, lists, maxDoc)
            case Err(_) => false
  {
    hide Ends, Flatten, BitSet, OnesOf, CountBelow, RankOffsets, Ascending;
    EndsFit(lists);
    forall k: nat ensures BitSet(words, k) <==> k in docs {
      BitIsMember(words, k);
    }
    var ends := Ends(lists, 0);
    OffsetsByRank(words, docs, ends, missing, maxDoc);
    var o := RankOffsets(words, ends, missing, maxDoc).value;
    forall i | 0 <= i < |docs| ensures Slice(ListColumn(o, Flatten(lists), Some(words)), docs[i]) == Some(lists[i]) {
      SparseSlice(docs, ends, maxDoc, o, i);
      SliceAt(lists, i);
    }
  }

  lemma SparseSlice(docs: seq<nat>, ends: seq<i64>, maxDoc: nat, o: seq<i32>, i: nat)
    requires Ascending(docs) && AllBelow(docs, maxDoc) && i < |docs| && |ends| == |docs| + 1 && ends[0] == 0
    requires Ranked(Ok(o), docs, ends, maxDoc)
    ensures docs[i] + 1 < |o| && o[docs[i]] == ends[i] && o[docs[i] + 1] == ends[i + 1]
  {
    var d := docs[i];
    CountBelowAt(docs, i);
    CountBelowStep(docs, d);
    if d > 0 {
      assert o[d] == ends[CountBelow(docs, d)];
    }
  }
}
