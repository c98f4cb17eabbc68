// Which of its forms a field takes -- the encoders choose the compact one exactly where the
// documents allow it -- and how sequences and payloads are cut into blocks.
module FieldForms {
  import opened Bits
  import opened Wire
  import opened StatsPass
  import opened Numeric
  import opened NumericWrite
  import opened Lex
  import opened Monotonic
  import opened SortedTerms
  import DvFile
  import SortedNumeric
  import BinaryValues
  import Disi

  // Documents are recorded by -2 if there are none, by -1 if all have a value, and only
  // otherwise by the region of their IndexedDISI and its jump entries.
  lemma CoverageForm(docs: seq<nat>, maxDoc: nat, at: nat)
    ensures DocsData(docs, |docs|, maxDoc) == if docs == [] || |docs| == maxDoc then [] else Disi.Encoded(docs, 9)
    ensures docs == [] ==> DocsOf(docs, |docs|, maxDoc, at) == DocsField(-2, 0, -1, 255)
    ensures docs != [] && |docs| == maxDoc ==> DocsOf(docs, |docs|, maxDoc, at) == DocsField(-1, 0, -1, 255)
    ensures docs != [] && |docs| != maxDoc ==>
              DocsOf(docs, |docs|, maxDoc, at) ==
                DocsField(Wrap(at), Wrap(|Disi.Encoded(docs, 9)|), AsI16(JumpEntries(docs[|docs| - 1])), 9)
  {
    hide Disi.Encoded, Wrap, AsI16;
  }

  // None if the last document is in the first block.
  function JumpEntries(last: nat): nat { if last < 65536 then 0 else last / 65536 + 2 }

  // Ends of lists are stored exactly if a document has more than one value.
  lemma ManyForm(docs: seq<nat>, lists: seq<seq<i64>>)
    requires |docs| == |lists| && forall i :: 0 <= i < |lists| ==> lists[i] != []
    ensures SortedNumeric.HasMany(docs, lists) <==> exists i :: 0 <= i < |lists| && |lists[i]| > 1
  {
    hide SortedNumeric.SortLongs;
    var sorted := SortedNumeric.SortEach(lists);
    forall i | 0 <= i < |lists| ensures |sorted[i]| == |lists[i]| {
      SortedNumeric.SortLongsIs(lists[i]);
      assert |multiset(sorted[i])| == |multiset(lists[i])|;
    }
    ItemCount(sorted);
  }

  lemma {:induction false} ItemCount(lists: seq<seq<i64>>)
    requires forall i :: 0 <= i < |lists| ==> lists[i] != []
    ensures |Flatten(lists)| >= |lists|
    ensures |Flatten(lists)| > |lists| <==> exists i :: 0 <= i < |lists| && |lists[i]| > 1
  {
    if lists != [] {
      ItemCount(lists[1..]);
      if i :| 1 <= i < |lists| && |lists[i]| > 1 {
        assert |lists[1..][i - 1]| > 1;
      }
    }
  }

  // A document holds two terms that differ.
  ghost predicate HoldsTwo(terms: seq<Term>) {
    exists j, k :: 0 <= j < |terms| && 0 <= k < |terms| && terms[j] != terms[k]
  }

  // So are those of ordinals, if a document has two terms that differ.
  lemma SetForm(sets: seq<seq<Term>>)
    requires |DictOf(sets)| < TWO_31
    ensures AnyMany(SetOrds(sets)) <==> exists i :: 0 <= i < |sets| && HoldsTwo(sets[i])
  {
    hide DictOf, DocOrds, SortUnique, HoldsTwo;
    var ords := SetOrds(sets);
    forall i | 0 <= i < |sets| ensures |ords[i]| > 1 <==> HoldsTwo(sets[i]) {
      SetOrdsAre(sets, i);
      UniqueTwo(sets[i]);
    }
  }

  lemma UniqueTwo(terms: seq<Term>)
    ensures |SortUnique(terms)| > 1 <==> HoldsTwo(terms)
  {
    hide Less, SortUnique;
    SortUniqueIs(terms);
    var s := SortUnique(terms);
    if |s| > 1 {
      LessIrreflexive(s[0]);
      assert s[0] in terms && s[1] in terms;
      var j :| 0 <= j < |terms| && terms[j] == s[0];
      var k :| 0 <= k < |terms| && terms[k] == s[1];
    }
    if HoldsTwo(terms) {
      var j, k :| 0 <= j < |terms| && 0 <= k < |terms| && terms[j] != terms[k];
      assert terms[j] in s && terms[k] in s;
    }
  }

  // Ends of blobs are stored exactly if two of them differ in length; the lengths recorded
  // are the least and the greatest.
  lemma BlobForm(blobs: seq<seq<byte>>)
    requires forall i :: 0 <= i < |blobs| ==> |blobs[i]| < TWO_31
    ensures BinaryValues.Varies(blobs) <==>
              exists i, j :: 0 <= i < |blobs| && 0 <= j < |blobs| && |blobs[i]| < |blobs[j]|
    ensures forall i :: 0 <= i < |blobs| ==> BinaryValues.LeastLength(blobs) <= |blobs[i]| <= BinaryValues.MaxLength(blobs)
    ensures blobs != [] ==> (exists i :: 0 <= i < |blobs| && |blobs[i]| == BinaryValues.LeastLength(blobs))
    ensures blobs != [] ==> (exists i :: 0 <= i < |blobs| && |blobs[i]| == BinaryValues.MaxLength(blobs))
  {
    BinaryValues.LengthBounds(blobs);
    if blobs != [] {
      var i, j := Extremes(blobs);
    }
  }

  lemma {:induction false} Extremes(blobs: seq<seq<byte>>) returns (i: nat, j: nat)
    requires blobs != [] && forall i :: 0 <= i < |blobs| ==> |blobs[i]| < TWO_31
    ensures i < |blobs| && |blobs[i]| == BinaryValues.MinLength(blobs)
    ensures j < |blobs| && |blobs[j]| == BinaryValues.MaxLength(blobs)
    decreases |blobs|
  {
    var n := |blobs| - 1;
    i, j := n, n;
    if n > 0 {
      var i', j' := Extremes(blobs[..n]);
      i := if |blobs[n]| < BinaryValues.MinLength(blobs[..n]) then n else i';
      j := if |blobs[n]| > BinaryValues.MaxLength(blobs[..n]) then n else j';
    }
  }

  // ----- address sequences --------------------------------------------------------------------------

  // A DirectMonotonic sequence has a block for every 65536 values, each from its own values.
  lemma AddressBlocks(values: seq<i64>, p: Predictor, i: nat)
    requires 65536 * i < |values|
    ensures i < |MetaBlocks(values, p, BlockSize(), 0)|
    ensures exists offset: nat :: MetaBlocks(values, p, BlockSize(), 0)[i] == BlockMeta(Stretch(values, i), p, offset)
  {
    hide BlockMeta, MetaBlocks, Stretch;
    assert BlockSize() == 65536 by { Pow2Values(); }
    var offset := BlocksFrom(values, p, 0, i);
  }

  function Stretch(values: seq<i64>, i: nat): (s: seq<i64>)
    requires 65536 * i < |values|
    ensures s != []
  {
    values[65536 * i..if |values| < 65536 * i + 65536 then |values| else 65536 * i + 65536]
  }

  lemma {:induction false} BlocksFrom(values: seq<i64>, p: Predictor, offset: nat, i: nat) returns (at: nat)
    requires 65536 * i < |values|
    ensures i < |MetaBlocks(values, p, 65536, offset)|
    ensures MetaBlocks(values, p, 65536, offset)[i] == BlockMeta(Stretch(values, i), p, at)
    decreases i
  {
    hide BlockMeta, BlockData;
    if i == 0 {
      at := offset;
      assert Stretch(values, 0) == Chunk(values, 65536);
    } else {
      var rest, offset' := Tail(values, 65536), offset + |BlockData(Chunk(values, 65536), p)|;
      at := BlocksFrom(rest, p, offset', i - 1);
      StretchTail(values, rest, i);
    }
  }

  lemma StretchTail(values: seq<i64>, rest: seq<i64>, i: nat)
    requires i > 0 && 65536 * i < |values| && rest == values[65536..]
    ensures Stretch(rest, i - 1) == Stretch(values, i)
  {
  }

  // ----- payloads of several blocks ----------------------------------------------------------------

  // A block as it is stored: its width and base, and its packed values unless the width is 0.
  datatype StoredBlock = StoredBlock(bpv: byte, min: i64, packed: seq<byte>)

  function StoredBytes(b: StoredBlock): seq<byte>
    requires |b.packed| < TWO_31
  {
    [b.bpv] + (LeI64(b.min) + if b.bpv == 0 then [] else LeI32(|b.packed|) + b.packed)
  }

  ghost predicate AllStored(blocks: seq<StoredBlock>) { forall i :: 0 <= i < |blocks| ==> |blocks[i].packed| < TWO_31 }

  function AllBytes(blocks: seq<StoredBlock>): seq<byte>
    requires AllStored(blocks)
  {
    if blocks == [] then [] else StoredBytes(blocks[0]) + AllBytes(blocks[1..])
  }

  // What each is to be decoded as; all but the last have 16384 values.
  function Walked(blocks: seq<StoredBlock>, pos: nat, gcd: i64, n: nat): seq<BlockDecode>
    requires AllStored(blocks)
  {
    if blocks == [] then []
    else
      var b, count := blocks[0], if n < 16384 then n else 16384;
      [if b.bpv == 0 then DeltaPacked(pos + 9, 0, 0, b.min, count)
       else GcdPacked(pos + 13, |b.packed|, b.bpv, b.min, gcd, count)] +
      Walked(blocks[1..], pos + |StoredBytes(b)|, gcd, n - count)
  }

  // The walk over a payload of n values finds every block where it was put, whatever is
  // around the payload.
  lemma {:induction false} WalkFinds(before: seq<byte>, blocks: seq<StoredBlock>, after: seq<byte>, gcd: i64, n: nat)
    requires AllStored(blocks) && 16384 * |blocks| < n + 16384 && n <= 16384 * |blocks|
    ensures WalkBlocks(before + (AllBytes(blocks) + after), |before|, gcd, n) == Ok(Walked(blocks, |before|, gcd, n))
    decreases |blocks|
  {
    hide StoredBytes, WalkBlocks;
    if blocks == [] {
      NothingToWalk(before + (AllBytes(blocks) + after), |before|, gcd);
    } else {
      var b, rest := blocks[0], AllBytes(blocks[1..]) + after;
      var dvd := before + (AllBytes(blocks) + after);
      var count := if n < 16384 then n else 16384;
      Assoc(StoredBytes(b), AllBytes(blocks[1..]), after);
      Assoc(before, StoredBytes(b), rest);
      WalkFinds(before + StoredBytes(b), blocks[1..], after, gcd, n - count);
      WalkFirst(before, b, rest, gcd, n, Walked(blocks[1..], |before| + |StoredBytes(b)|, gcd, n - count));
    }
  }

  lemma NothingToWalk(dvd: seq<byte>, pos: nat, gcd: i64)
    ensures WalkBlocks(dvd, pos, gcd, 0) == Ok([])
  {
  }

  lemma WalkFirst(before: seq<byte>, b: StoredBlock, rest: seq<byte>, gcd: i64, n: nat, later: seq<BlockDecode>)
    requires |b.packed| < TWO_31 && n > 0
    requires var count := if n < 16384 then n else 16384;
             WalkBlocks(before + (StoredBytes(b) + rest), |before| + |StoredBytes(b)|, gcd, n - count) == Ok(later)
    ensures var count := if n < 16384 then n else 16384;
            WalkBlocks(before + (StoredBytes(b) + rest), |before|, gcd, n) ==
              Ok([if b.bpv == 0 then DeltaPacked(|before| + 9, 0, 0, b.min, count)
                  else GcdPacked(|before| + 13, |b.packed|, b.bpv, b.min, gcd, count)] + later)
  {
    hide LeI64, LeI32, ReadI64, ReadI32;
    var dvd := before + (StoredBytes(b) + rest);
    assert dvd[|before|..] == StoredBytes(b) + rest;
    if b.bpv == 0 {
      assert StoredBytes(b) + rest == [b.bpv] + (LeI64(b.min) + rest);
      assert ([b.bpv] + (LeI64(b.min) + rest))[1..] == LeI64(b.min) + rest;
      I64RoundTrip(b.min, rest);
    } else {
      var tail := LeI32(|b.packed|) + (b.packed + rest);
      assert StoredBytes(b) + rest == [b.bpv] + (LeI64(b.min) + tail);
      assert ([b.bpv] + (LeI64(b.min) + tail))[1..] == LeI64(b.min) + tail;
      I64RoundTrip(b.min, tail);
      I32RoundTrip(|b.packed|, b.packed + rest);
    }
  }

  // ----- the head of a field -----------------------------------------------------------------------

  // Five bytes: the number of the field, and which of the five kinds it is.
  lemma HeadForm(f: DvFile.Field, maxDoc: nat, c: Codec, at: nat)
    requires DvFile.Storable(f.input)
    ensures DvFile.FieldMeta(f, maxDoc, c, at) ==
              (LeI32(f.number) +
               [match f.input
                case NumericField(_, _) => 0
                case BinaryField(_, _) => 1
                case SortedField(_, _) => 2
                case SortedSetField(_, _) => 3
                case SortedNumericField(_, _) => 4]) + DvFile.Body(f.input, maxDoc, c, at)
  {
  }

  // A field with a skip index is read as without one: the 40 bytes behind its type are passed
  // over, whatever they are.
  lemma SkipIndexed(kind: DvFile.DvKind, typeByte: byte, skip: seq<byte>, rest: seq<byte>, dvd: seq<byte>, maxDoc: nat)
    requires |skip| == 40
    ensures DvFile.ReadField(DvFile.DvField(kind, true), [typeByte] + (skip + rest), dvd, maxDoc) ==
            DvFile.ReadField(DvFile.DvField(kind, false), [typeByte] + rest, dvd, maxDoc)
  {
    hide DvFile.ReadBody;
    assert ([typeByte] + (skip + rest))[1..] == skip + rest;
    assert ([typeByte] + rest)[1..] == rest;
    assert (skip + rest)[40..] == rest && rest[0..] == rest;
  }
}
