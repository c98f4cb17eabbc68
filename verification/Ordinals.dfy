// Ordinals: positions in a sorted dictionary. The ords of a field cover 0..n-1,
// so the numeric policy can only store them directly (or as a constant 0), and a
// plan of such blocks can be rewritten to emit remapped ords without failing.
module Ordinals {
  import opened Bits
  import opened Wire
  import opened BinaryGcd
  import opened StatsPass
  import opened Policy
  import opened Numeric
  import opened NumericWrite
  import opened Lex
  import Direct

  // ----- ords in range ------------------------------------------------------------

  // The values are exactly 0..n-1.
  ghost predicate CoversRange(values: seq<i64>, n: nat) {
    && (forall i :: 0 <= i < |values| ==> 0 <= values[i] < n)
    && (forall k: nat :: k < n ==> Among(values, k))
  }

  ghost predicate Among(values: seq<i64>, k: nat) {
    exists i :: 0 <= i < |values| && values[i] == k
  }

  function OrdList(terms: seq<Term>, dict: seq<Term>): (o: seq<i64>)
    requires |dict| < TWO_63
    ensures |o| == |terms|
  {
    seq<i64>(|terms|, i requires 0 <= i < |terms| => OrdOf(dict, terms[i]))
  }

  lemma OrdsCover(terms: seq<Term>, dict: seq<Term>)
    requires StrictlySorted(dict) && |dict| < TWO_63 && forall x :: x in dict <==> x in terms
    ensures CoversRange(OrdList(terms, dict), |dict|)
  {
    hide OrdOf, Less;
    var ords := OrdList(terms, dict);
    forall k: nat | k < |dict| ensures Among(ords, k) {
      assert dict[k] in terms;
      var i :| 0 <= i < |terms| && terms[i] == dict[k];
      OrdUnique(dict, k);
      assert ords[i] == k;
    }
  }

  // ----- the policy on ords -------------------------------------------------------------

  lemma {:induction false} CoverLength(t: seq<i64>, n: nat)
    requires forall k: nat :: k < n ==> Among(t, k)
    ensures |t| >= n
  {
    if n > 0 {
      assert Among(t, n - 1);
      var i :| 0 <= i < |t| && t[i] == n - 1;
      var rest := t[..i] + t[i + 1..];
      forall k: nat | k < n - 1 ensures Among(rest, k) {
        assert Among(t, k);
        var j :| 0 <= j < |t| && t[j] == k;
        assert rest[if j < i then j else j - 1] == k;
      }
      CoverLength(rest, n - 1);
    }
  }

  lemma BitsGrow(x: i64, y: i64)
    requires 0 <= x <= y
    ensures BitsOf(x) <= BitsOf(y)
  {
  }

  // Ords next to the first one are one apart from it: the gcd is 1.
  lemma OrdGcd(values: seq<i64>, n: nat, s: NumericStats)
    requires |values| > 0 && CoversRange(values, n) && 2 <= n < TWO_31 && IsStats(values, s)
    ensures s.gcd == 1 && s.min == 0 && s.max == n - 1
  {
    var first := values[0];
    var k: nat := if first + 1 < n then first + 1 else first - 1;
    assert Among(values, k) && Among(values, 0) && Among(values, n - 1);
    var i :| 0 <= i < |values| && values[i] == k;
    var d := Deltas(values, first);
    assert d[i] == 1;
    hide GcdAll, Divides, IsTable;
    DividesSelf(GcdAll(d));
    GcdAllDivisors(d, GcdAll(d));
    DividesBound(GcdAll(d), 1);
    assert AllInHalfRange(values);
  }

  lemma TableCovers(values: seq<i64>, n: nat, s: NumericStats)
    requires |values| > 0 && CoversRange(values, n) && IsStats(values, s) && s.table.Some?
    ensures |s.table.value| >= n
  {
    var t := s.table.value;
    forall k: nat | k < n ensures Among(t, k) {
      assert Among(values, k);
      var i :| 0 <= i < |values| && values[i] == k;
      assert values[i] in Distinct(values);
      assert values[i] in Distinct(t);
      var j :| 0 <= j < |t| && t[j] == k;
    }
    CoverLength(t, n);
  }

  // What the policy makes of ords: a constant 0, or direct packing.
  ghost predicate StoredDirectly(c: Choice, n: nat) {
    c.table.None? && c.min == 0 && (if n == 1 then c.bpv == 0 else c.bpv > 0 && c.gcd == 1)
  }

  lemma OrdPolicy(values: seq<i64>, n: nat)
    requires |values| > 0 && CoversRange(values, n) && n < TWO_31
    ensures n > 0 && StoredDirectly(ChoiceOf(values), n)
  {
    assert 0 <= values[0] < n;
    if n == 1 {
      OneOrd(values);
    } else {
      ManyOrds(values, n, StatsOf(values));
    }
  }

  lemma OneOrd(values: seq<i64>)
    requires |values| > 0 && CoversRange(values, 1)
    ensures StoredDirectly(ChoiceOf(values), 1)
  {
    hide Direct.UnsignedBitsRequired, Quotient;
    var s := StatsOf(values);
    assert s.min in values && s.max in values;
  }

  lemma ManyOrds(values: seq<i64>, n: nat, s: NumericStats)
    requires |values| > 0 && CoversRange(values, n) && 2 <= n < TWO_31 && s == StatsOf(values) && IsStats(values, s)
    ensures StoredDirectly(ChoiceOf(values), n)
  {
    hide IsStats, Direct.UnsignedBitsRequired, DeltaBits;
    OrdGcd(values, n, s);
    OrdBits(s, n);
    if s.table.Some? && |s.table.value| <= MAX_TABLE {
      TableCovers(values, n, s);
      BitsGrow(n - 1, |s.table.value| - 1);
    }
  }

  lemma OrdBits(s: NumericStats, n: nat)
    requires s.gcd == 1 && s.min == 0 && s.max == n - 1 && 2 <= n < TWO_31
    ensures DeltaBits(s) == BitsOf(n - 1) > 0
  {
    hide Direct.UnsignedBitsRequired, Quotient;
    TruncDivByOne(n - 1);
    WrapIsIdentity(n - 1);
  }

  // ----- remapping a plan ---------------------------------------------------------------

  function RemapBlock(b: BlockDecode, remap: seq<i32>): Result<BlockDecode> {
    match b
    case DirectPacked(offset, len, width, values) => Ok(TablePacked(offset, len, width, Longs(remap), values))
    case DeltaPacked(offset, len, width, base, values) =>
      if width != 0 then Err(Invalid)
      else if !(0 <= base < |remap|) then Err(Invalid)
      else Ok(DeltaPacked(offset, len, 0, remap[base], values))
    case _ => Err(Invalid)
  }

  function Longs(remap: seq<i32>): (t: seq<i64>)
    ensures |t| == |remap|
  {
    seq<i64>(|remap|, i requires 0 <= i < |remap| => remap[i])
  }

  function RemapBlocks(blocks: seq<BlockDecode>, remap: seq<i32>): Result<seq<BlockDecode>> {
    if blocks == [] then Ok([])
    else
      var b :- RemapBlock(blocks[0], remap);
      var rest :- RemapBlocks(blocks[1..], remap);
      Ok([b] + rest)
  }

  function ApplyRemap(ords: DecodePlan, remap: seq<i32>): Result<DecodePlan> {
    var blocks :- RemapBlocks(ords.blocks, remap);
    Ok(DecodePlan(blocks, ords.coverage, ords.numValues))
  }

  // Blocks are rewritten in place, in order; the first that cannot be ends it.
  method RemapPlan(ords: DecodePlan, remap: seq<i32>) returns (r: Result<DecodePlan>)
    ensures match ApplyRemap(ords, remap) case Ok(plan) => r == Ok(plan) case Err(e) => r == Err(e)
  {
    hide RemapBlock, RemapBlocks;
    var blocks, i := ords.blocks, 0;
    RemapNone(ords.blocks, remap);
    while i < |blocks|
      invariant i <= |blocks| == |ords.blocks| && blocks[i..] == ords.blocks[i..]
      invariant Onto(blocks[..i], RemapBlocks(ords.blocks[i..], remap)) == RemapBlocks(ords.blocks, remap)
    {
      RemapNext(blocks[..i], ords.blocks[i..], remap);
      assert ords.blocks[i..][1..] == ords.blocks[i + 1..] && ords.blocks[i..][0] == blocks[i];
      var b :- RemapBlock(blocks[i], remap);
      blocks := blocks[i := b];
      assert blocks[..i + 1] == blocks[..i] + [b];
      i := i + 1;
    }
    RemapEnd(blocks[..i], ords.blocks[i..], remap);
    assert blocks[..i] == blocks;
    return Ok(DecodePlan(blocks, ords.coverage, ords.numValues));
  }

  lemma RemapNone(blocks: seq<BlockDecode>, remap: seq<i32>)
    ensures blocks[0..] == blocks && Onto(blocks[..0], RemapBlocks(blocks, remap)) == RemapBlocks(blocks, remap)
  {
    OntoNothing(blocks[..0], RemapBlocks(blocks, remap));
    assert blocks[..0] == [];
  }

  lemma RemapNext(done: seq<BlockDecode>, left: seq<BlockDecode>, remap: seq<i32>)
    requires left != []
    ensures match RemapBlock(left[0], remap)
            case Ok(b) => Onto(done, RemapBlocks(left, remap)) == Onto(done + [b], RemapBlocks(left[1..], remap))
            case Err(e) => Onto(done, RemapBlocks(left, remap)) == Err(e)
  {
    hide RemapBlock;
    if RemapBlock(left[0], remap).Ok? && RemapBlocks(left[1..], remap).Ok? {
      Assoc(done, [RemapBlock(left[0], remap).value], RemapBlocks(left[1..], remap).value);
    }
  }

  lemma RemapEnd(done: seq<BlockDecode>, left: seq<BlockDecode>, remap: seq<i32>)
    requires left == []
    ensures Onto(done, RemapBlocks(left, remap)) == Ok(done)
  {
    assert done + [] == done;
  }

  ghost predicate Below(values: seq<i64>, n: nat) {
    forall i :: 0 <= i < |values| ==> 0 <= values[i] < n
  }

  function Mapped(values: seq<i64>, remap: seq<i32>): (m: seq<i64>)
    requires Below(values, |remap|)
    ensures |m| == |values|
  {
    seq<i64>(|values|, i requires 0 <= i < |values| => remap[values[i]])
  }

  lemma {:induction false} GatherRemap(xs: seq<nat>, remap: seq<i32>)
    requires Fits(xs, 64) && Below(Epilogue(xs, 0, 1), |remap|)
    ensures Gives(Gather(xs, Longs(remap)), Mapped(Epilogue(xs, 0, 1), remap))
  {
    hide Epilogue, Fits, Longs;
    if xs == [] {
      NoneGathered(remap);
    } else {
      FirstCode(xs, |remap|);
      var e := Epilogue(xs, 0, 1);
      assert e == [xs[0]] + Epilogue(xs[1..], 0, 1);
      GatherRemap(xs[1..], remap);
      FirstMapped(xs[0], e[1..], remap);
    }
  }

  lemma NoneGathered(remap: seq<i32>)
    ensures Epilogue([], 0, 1) == [] && Mapped([], remap) == []
  {
  }

  // With no base and divisor 1, codes are the values themselves.
  lemma FirstCode(xs: seq<nat>, n: nat)
    requires xs != [] && Fits(xs, 64) && Below(Epilogue(xs, 0, 1), n)
    ensures Fits(xs[1..], 64) && Below(Epilogue(xs[1..], 0, 1), n)
    ensures xs[0] < n && xs[0] < TWO_63 && Epilogue(xs, 0, 1) == [xs[0]] + Epilogue(xs[1..], 0, 1)
  {
    hide Wrap, Pow2;
    Pow2Values();
    UnsignedWrap(xs[0]);
    var e := Epilogue(xs, 0, 1);
    assert e[0] == Wrap(xs[0]);
    assert Epilogue(xs[1..], 0, 1) == e[1..];
  }

  lemma FirstMapped(x: i64, rest: seq<i64>, remap: seq<i32>)
    requires 0 <= x < |remap| && Below(rest, |remap|)
    ensures Mapped([x] + rest, remap) == [Longs(remap)[x]] + Mapped(rest, remap)
  {
    assert ([x] + rest)[1..] == rest;
  }

  lemma UnpackedFit(bytes: seq<byte>, w: nat, count: nat)
    ensures var r := Direct.UnpackFused(bytes, w, count); r.Ok? ==> Fits(r.value, 64)
  {
    if Direct.UnpackFused(bytes, w, count).Ok? {
      DigitsFit(LeNum(bytes), w, count);
      Pow2Monotone(w, 64);
    }
  }

  // Decoding a rewritten block is mapping what the original decodes to.
  lemma RemapBlockDecodes(b: BlockDecode, remap: seq<i32>, dvd: seq<byte>, values: seq<i64>)
    requires RemapBlock(b, remap).Ok? && Gives(DecodeBlock(b, dvd), values) && Below(values, |remap|)
    ensures Gives(DecodeBlock(RemapBlock(b, remap).value, dvd), Mapped(values, remap))
  {
    hide Epilogue, Gather, Direct.UnpackFused, Fits;
    match b
    case DirectPacked(offset, len, width, count) =>
      var payload := dvd[offset..offset + len];
      UnpackedFit(payload, width, count);
      GatherRemap(Direct.UnpackFused(payload, width, count).value, remap);
    case DeltaPacked(_, _, _, base, count) =>
      assert Mapped(values, remap) == Repeat(remap[base], count);
    case GcdPacked(_, _, _, _, _, _) =>
    case TablePacked(_, _, _, _, _) =>
  }

  lemma {:induction false} RemapBlocksDecode(blocks: seq<BlockDecode>, remap: seq<i32>, dvd: seq<byte>, values: seq<i64>)
    requires RemapBlocks(blocks, remap).Ok? && Gives(DecodeBlocks(blocks, dvd), values) && Below(values, |remap|)
    ensures Gives(DecodeBlocks(RemapBlocks(blocks, remap).value, dvd), Mapped(values, remap))
  {
    hide DecodeBlock, RemapBlock;
    if blocks == [] {
      assert Mapped(values, remap) == [];
    } else {
      var first, rest := DecodeBlock(blocks[0], dvd).value, DecodeBlocks(blocks[1..], dvd).value;
      assert values == first + rest;
      BelowParts(first, rest, |remap|);
      RemapBlockDecodes(blocks[0], remap, dvd, first);
      RemapBlocksDecode(blocks[1..], remap, dvd, rest);
      var b, bs := RemapBlock(blocks[0], remap).value, RemapBlocks(blocks[1..], remap).value;
      assert ([b] + bs)[1..] == bs;
      MappedAppend(first, rest, remap);
    }
  }

  lemma BelowParts(a: seq<i64>, b: seq<i64>, n: nat)
    requires Below(a + b, n)
    ensures Below(a, n) && Below(b, n)
  {
    var all := a + b;
    assert forall i :: 0 <= i < |a| ==> all[i] == a[i];
    assert forall i :: 0 <= i < |b| ==> all[|a| + i] == b[i];
  }

  lemma MappedAppend(a: seq<i64>, b: seq<i64>, remap: seq<i32>)
    requires Below(a, |remap|) && Below(b, |remap|) && Below(a + b, |remap|)
    ensures Mapped(a + b, remap) == Mapped(a, remap) + Mapped(b, remap)
  {
  }

  // Rewriting a plan commutes with decoding it.
  lemma RemapCommutes(ords: DecodePlan, remap: seq<i32>, dvd: seq<byte>, values: seq<i64>)
    requires ApplyRemap(ords, remap).Ok? && Gives(DecodeValues(ords, dvd), values) && Below(values, |remap|)
    ensures Gives(DecodeValues(ApplyRemap(ords, remap).value, dvd), Mapped(values, remap))
  {
    hide DecodeBlocks, RemapBlocks;
    RemapBlocksDecode(ords.blocks, remap, dvd, values);
  }

  // Ord plans can always be rewritten, and decode to the remapped ords.
  lemma OrdPlanRemaps(ords: seq<i64>, n: nat, docs: seq<nat>, maxDoc: nat, at: nat, dvd: seq<byte>, remap: seq<i32>)
    requires |ords| > 0 && CoversRange(ords, n) && n < TWO_31 && |ords| < TWO_63 && |remap| == n
    requires PlacedAt(dvd, at, EntryData(ords, docs, maxDoc))
    ensures match IntoPlan(EntryOf(ords, docs, maxDoc, at), dvd, maxDoc)
            case Err(_) => false
            case Ok(plan) =>
              && Gives(DecodeValues(plan, dvd), ords)
              && ApplyRemap(plan, remap).Ok? && Below(ords, |remap|)
              && Gives(DecodeValues(ApplyRemap(plan, remap).value, dvd), Mapped(ords, remap))
  {
    hide DecodeValues, ValuesData, DocsData, DocsOf, ChoiceOf;
    var e := EntryOf(ords, docs, maxDoc, at);
    OrdPolicy(ords, n);
    EntryValues(ords, docs, maxDoc, at, dvd, e);
    var plan := IntoPlan(e, dvd, maxDoc).value;
    var b := SingleBlock(e.table, e.packing, |ords|);
    assert plan.blocks == [b];
    OneBlockRemaps(b, remap);
    RemapCommutes(plan, remap, dvd, ords);
  }

  lemma OneBlockRemaps(b: BlockDecode, remap: seq<i32>)
    requires RemapBlock(b, remap).Ok?
    ensures RemapBlocks([b], remap).Ok?
  {
    assert [b][1..] == [];
  }
}
