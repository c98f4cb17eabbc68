// The ordinal map: per-segment dictionaries merged into one global dictionary by
// a heap of the segments' next terms, collapsing duplicates, with a table per
// segment from local to global ords.
module OrdinalMap {
  import opened Bits
  import opened Wire
  import opened Lex
  import opened StatsPass
  import SortedTerms

  datatype HeapEntry = HeapEntry(term: Term, seg: nat, ord: nat)

  // The heap's order: by term, then by segment.
  predicate Before(a: HeapEntry, b: HeapEntry) {
    Less(a.term, b.term) || (a.term == b.term && a.seg <= b.seg)
  }

  ghost predicate IsLeast(e: HeapEntry, heap: set<HeapEntry>) {
    e in heap && forall x :: x in heap ==> Before(e, x)
  }

  lemma BeforeTotal(a: HeapEntry, b: HeapEntry)
    ensures Before(a, b) || Before(b, a)
  {
    LessTotal(a.term, b.term);
  }

  lemma BeforeTransitive(a: HeapEntry, b: HeapEntry, c: HeapEntry)
    requires Before(a, b) && Before(b, c)
    ensures Before(a, c)
  {
    if Less(a.term, b.term) && Less(b.term, c.term) {
      LessTransitive(a.term, b.term, c.term);
    }
  }

  // A binary heap is a set from which the least entry can be popped.
  method Pop(heap: set<HeapEntry>) returns (e: HeapEntry, rest: set<HeapEntry>)
    requires heap != {}
    ensures IsLeast(e, heap) && rest == heap - {e}
  {
    hide Before;
    e :| e in heap;
    var left := heap - {e};
    while left != {}
      invariant left <= heap && e in heap
      invariant forall x :: x in heap && x !in left ==> Before(e, x) || x == e
      decreases left
    {
      var x :| x in left;
      left := left - {x};
      if Before(x, e) {
        forall y | y in heap && y !in left ensures Before(x, y) || y == x {
          if y != x && y != e {
            BeforeTransitive(x, e, y);
          }
        }
        e := x;
      } else {
        BeforeTotal(x, e);
      }
    }
    BeforeTotal(e, e);
    rest := heap - {e};
  }

  // ----- the merge in progress --------------------------------------------------------------

  // How many terms of each segment are consumed, and what came of them.
  datatype Merge = Merge(pos: seq<nat>, terms: seq<Term>, remap: seq<seq<i32>>)

  ghost predicate AllSorted(dicts: seq<seq<Term>>) {
    forall s :: 0 <= s < |dicts| ==> StrictlySorted(dicts[s])
  }

  ghost predicate Shaped(dicts: seq<seq<Term>>, m: Merge) {
    && |m.pos| == |m.remap| == |dicts|
    && (forall s :: 0 <= s < |dicts| ==> m.pos[s] <= |dicts[s]| && |m.remap[s]| == |dicts[s]|)
  }

  // Local ord o of segment s is mapped to where its term is.
  predicate MapsTo(terms: seq<Term>, remap: seq<i32>, dict: seq<Term>, o: nat) {
    o < |remap| && o < |dict| && 0 <= remap[o] < |terms| && terms[remap[o]] == dict[o]
  }

  ghost predicate Mapped(dicts: seq<seq<Term>>, m: Merge)
    requires Shaped(dicts, m)
  {
    forall s, o: nat :: 0 <= s < |dicts| && o < m.pos[s] ==> MapsTo(m.terms, m.remap[s], dicts[s], o)
  }

  // Term x is the ord-th of segment seg, and consumed.
  predicate Consumed(dicts: seq<seq<Term>>, pos: seq<nat>, seg: nat, ord: nat, x: Term) {
    seg < |dicts| && seg < |pos| && ord < pos[seg] && ord < |dicts[seg]| && dicts[seg][ord] == x
  }

  ghost predicate HasSource(dicts: seq<seq<Term>>, pos: seq<nat>, x: Term) {
    exists s: nat, o: nat :: Consumed(dicts, pos, s, o, x)
  }

  ghost predicate Sourced(dicts: seq<seq<Term>>, m: Merge) {
    forall i :: 0 <= i < |m.terms| ==> HasSource(dicts, m.pos, m.terms[i])
  }

  // No unconsumed head lies below the last emitted term.
  ghost predicate Ahead(dicts: seq<seq<Term>>, m: Merge)
    requires Shaped(dicts, m)
  {
    m.terms != [] ==>
      forall s :: 0 <= s < |dicts| && m.pos[s] < |dicts[s]| ==>
        !Less(dicts[s][m.pos[s]], m.terms[|m.terms| - 1])
  }

  ghost predicate Merging(dicts: seq<seq<Term>>, m: Merge) {
    Shaped(dicts, m) && StrictlySorted(m.terms) && Mapped(dicts, m) && Sourced(dicts, m) && Ahead(dicts, m)
  }

  // The heap holds the next term of every segment that has one.
  ghost predicate Heads(dicts: seq<seq<Term>>, pos: seq<nat>, heap: set<HeapEntry>) {
    && |pos| == |dicts|
    && (forall e :: e in heap ==> e.seg < |dicts| && e.ord == pos[e.seg] < |dicts[e.seg]| && e.term == dicts[e.seg][e.ord])
    && (forall s: nat :: s < |dicts| && pos[s] < |dicts[s]| ==> HeapEntry(dicts[s][pos[s]], s, pos[s]) in heap)
  }

  // `row[o] = global`
  function Assign(row: seq<i32>, o: nat, global: i32): (r: seq<i32>)
    requires o < |row|
    ensures |r| == |row| && r[o] == global && forall k :: 0 <= k < |row| && k != o ==> r[k] == row[k]
  {
    seq<i32>(|row|, k requires 0 <= k < |row| => if k == o then global else row[k])
  }

  // Consuming the least head e: its term is emitted unless it is the last one.
  ghost function Step(m: Merge, e: HeapEntry): Merge
    requires e.seg < |m.pos| == |m.remap| && e.ord < |m.remap[e.seg]|
    requires |Emitted(m.terms, e.term)| <= TWO_31
  {
    var terms := Emitted(m.terms, e.term);
    var global: i32 := |terms| - 1;
    Merge(m.pos[e.seg := e.ord + 1], terms, m.remap[e.seg := Assign(m.remap[e.seg], e.ord, global)])
  }

  function Emitted(terms: seq<Term>, t: Term): (r: seq<Term>)
    ensures r != [] && r[|r| - 1] == t
  {
    if terms != [] && terms[|terms| - 1] == t then terms else terms + [t]
  }

  lemma StepSorted(dicts: seq<seq<Term>>, m: Merge, heap: set<HeapEntry>, e: HeapEntry)
    requires Merging(dicts, m) && Heads(dicts, m.pos, heap) && e in heap
    ensures StrictlySorted(Emitted(m.terms, e.term))
  {
    hide Less;
    var r := Emitted(m.terms, e.term);
    if r != m.terms {
      forall i, j | 0 <= i < j < |r| ensures Less(r[i], r[j]) {
        if j == |m.terms| {
          var last := m.terms[|m.terms| - 1];
          LessTotal(last, e.term);
          if i < |m.terms| - 1 {
            LessTransitive(m.terms[i], last, e.term);
          }
        }
      }
    }
  }

  lemma StepMapped(dicts: seq<seq<Term>>, m: Merge, e: HeapEntry)
    requires Shaped(dicts, m) && Mapped(dicts, m)
    requires e.seg < |dicts| && e.ord == m.pos[e.seg] < |dicts[e.seg]| && e.term == dicts[e.seg][e.ord]
    requires |Emitted(m.terms, e.term)| <= TWO_31
    ensures Shaped(dicts, Step(m, e)) && Mapped(dicts, Step(m, e))
  {
    var m' := Step(m, e);
    forall s, o: nat | 0 <= s < |dicts| && o < m'.pos[s] ensures MapsTo(m'.terms, m'.remap[s], dicts[s], o) {
      if s != e.seg || o < e.ord {
        assert MapsTo(m.terms, m.remap[s], dicts[s], o);
      }
    }
  }

  lemma StepSourced(dicts: seq<seq<Term>>, m: Merge, e: HeapEntry)
    requires Shaped(dicts, m) && Sourced(dicts, m)
    requires e.seg < |dicts| && e.ord == m.pos[e.seg] < |dicts[e.seg]| && e.term == dicts[e.seg][e.ord]
    requires |Emitted(m.terms, e.term)| <= TWO_31
    ensures Sourced(dicts, Step(m, e))
  {
    var m' := Step(m, e);
    forall i | 0 <= i < |m'.terms| ensures HasSource(dicts, m'.pos, m'.terms[i]) {
      if i < |m.terms| {
        SourceKept(dicts, m.pos, e, m.terms[i]);
      } else {
        assert Consumed(dicts, m'.pos, e.seg, e.ord, m'.terms[i]);
      }
    }
  }

  lemma SourceKept(dicts: seq<seq<Term>>, pos: seq<nat>, e: HeapEntry, x: Term)
    requires e.seg < |pos| && pos[e.seg] <= e.ord + 1 && HasSource(dicts, pos, x)
    ensures HasSource(dicts, pos[e.seg := e.ord + 1], x)
  {
    var s: nat, o: nat :| Consumed(dicts, pos, s, o, x);
    assert Consumed(dicts, pos[e.seg := e.ord + 1], s, o, x);
  }

  lemma StepAhead(dicts: seq<seq<Term>>, m: Merge, heap: set<HeapEntry>, e: HeapEntry)
    requires AllSorted(dicts) && Shaped(dicts, m) && Heads(dicts, m.pos, heap) && IsLeast(e, heap)
    requires |Emitted(m.terms, e.term)| <= TWO_31
    ensures Ahead(dicts, Step(m, e))
  {
    hide Less;
    var m' := Step(m, e);
    forall s | 0 <= s < |dicts| && m'.pos[s] < |dicts[s]| ensures !Less(dicts[s][m'.pos[s]], e.term) {
      if s == e.seg {
        assert Less(dicts[s][e.ord], dicts[s][e.ord + 1]);
        LessAsymmetric(e.term, dicts[s][e.ord + 1]);
      } else {
        var head := HeapEntry(dicts[s][m.pos[s]], s, m.pos[s]);
        assert Before(e, head);
        if Less(e.term, head.term) {
          LessAsymmetric(e.term, head.term);
        } else {
          LessIrreflexive(e.term);
        }
      }
    }
  }

  function NextHead(dicts: seq<seq<Term>>, e: HeapEntry): set<HeapEntry> {
    if e.seg < |dicts| && e.ord + 1 < |dicts[e.seg]| then {HeapEntry(dicts[e.seg][e.ord + 1], e.seg, e.ord + 1)} else {}
  }

  lemma StepHeads(dicts: seq<seq<Term>>, pos: seq<nat>, heap: set<HeapEntry>, e: HeapEntry)
    requires Heads(dicts, pos, heap) && e in heap
    ensures Heads(dicts, pos[e.seg := e.ord + 1], (heap - {e}) + NextHead(dicts, e))
  {
    hide Less;
    var pos' := pos[e.seg := e.ord + 1];
    var heap' := (heap - {e}) + NextHead(dicts, e);
    forall x | x in heap' ensures x.seg < |dicts| && x.ord == pos'[x.seg] < |dicts[x.seg]| && x.term == dicts[x.seg][x.ord] {
    }
    forall s: nat | s < |dicts| && pos'[s] < |dicts[s]| ensures HeapEntry(dicts[s][pos'[s]], s, pos'[s]) in heap' {
      if s != e.seg {
        assert HeapEntry(dicts[s][pos[s]], s, pos[s]) in heap;
      }
    }
  }

  lemma MergeStep(dicts: seq<seq<Term>>, m: Merge, heap: set<HeapEntry>, e: HeapEntry)
    requires AllSorted(dicts) && Merging(dicts, m) && Heads(dicts, m.pos, heap) && IsLeast(e, heap)
    requires |Emitted(m.terms, e.term)| <= TWO_31
    ensures e.seg < |m.pos| == |m.remap| && e.ord < |m.remap[e.seg]|
    ensures Merging(dicts, Step(m, e)) && Heads(dicts, Step(m, e).pos, (heap - {e}) + NextHead(dicts, e))
  {
    hide Less, Emitted, Before;
    StepSorted(dicts, m, heap, e);
    StepMapped(dicts, m, e);
    StepSourced(dicts, m, e);
    StepAhead(dicts, m, heap, e);
    StepHeads(dicts, m.pos, heap, e);
  }

  // ----- counting ------------------------------------------------------------------------------

  function Total(lengths: seq<nat>): nat {
    if lengths == [] then 0 else lengths[0] + Total(lengths[1..])
  }

  lemma {:induction false} TotalBump(a: seq<nat>, i: nat)
    requires i < |a|
    ensures Total(a[i := a[i] + 1]) == Total(a) + 1
  {
    if i > 0 {
      assert a[i := a[i] + 1][1..] == a[1..][i - 1 := a[i] + 1];
      TotalBump(a[1..], i - 1);
    } else {
      assert a[0 := a[0] + 1][1..] == a[1..];
    }
  }

  lemma {:induction false} TotalBelow(a: seq<nat>, b: seq<nat>)
    requires |a| == |b| && forall i :: 0 <= i < |a| ==> a[i] <= b[i]
    ensures Total(a) <= Total(b)
    ensures (exists i :: 0 <= i < |a| && a[i] < b[i]) ==> Total(a) < Total(b)
  {
    if a != [] {
      TotalBelow(a[1..], b[1..]);
      if i :| 0 <= i < |a| && a[i] < b[i] {
        if i > 0 {
          assert a[1..][i - 1] < b[1..][i - 1];
        }
      }
    }
  }

  function Lengths(dicts: seq<seq<Term>>): (l: seq<nat>)
    ensures |l| == |dicts|
  {
    seq(|dicts|, i requires 0 <= i < |dicts| => |dicts[i]|)
  }

  // Distinct sorted terms: at most one is empty, so ords fit where bytes do.
  lemma {:induction false} TermsFitBytes(d: Dictionary, terms: seq<Term>)
    requires StrictlySorted(terms)
    ensures |PushAll(I32, d, terms).bytes| + 1 >= |d.bytes| + |terms|
    ensures terms != [] && terms[0] != [] ==> |PushAll(I32, d, terms).bytes| >= |d.bytes| + |terms|
    decreases |terms|
  {
    if terms != [] {
      TermsFitBytes(Push(I32, d, terms[0]), terms[1..]);
      if |terms| > 1 {
        assert Less(terms[0], terms[1]);
      }
    }
  }

  // ----- the result -------------------------------------------------------------------------------

  // The global terms: the union of the dictionaries, strictly sorted.
  function Union(dicts: seq<seq<Term>>): seq<Term> { SortUnique(Flatten(dicts)) }

  // Every local ord leads to its own term, and order is kept.
  ghost predicate Remaps(dicts: seq<seq<Term>>, terms: seq<Term>, remap: seq<seq<i32>>) {
    && |remap| == |dicts|
    && forall s :: 0 <= s < |dicts| ==>
         && |remap[s]| == |dicts[s]| && Ascending(remap[s])
         && forall o: nat :: o < |dicts[s]| ==> MapsTo(terms, remap[s], dicts[s], o)
  }

  // A sorted list within another has no more bytes.
  lemma {:induction false} FewerBytes(a: seq<Term>, b: seq<Term>)
    requires StrictlySorted(a) && StrictlySorted(b) && forall x :: x in a ==> x in b
    ensures Bytes(a) <= Bytes(b)
    decreases |b|
  {
    hide Less;
    if a != [] {
      assert a[0] in b;
      TailSorted(a);
      TailSorted(b);
      if a[0] == b[0] {
        forall x | x in a[1..] ensures x in b[1..] {
          TailMembers(a, x);
          TailMembers(b, x);
        }
        FewerBytes(a[1..], b[1..]);
      } else {
        NotFirst(a, b);
        FewerBytes(a, b[1..]);
      }
    }
  }

  lemma NotFirst(a: seq<Term>, b: seq<Term>)
    requires StrictlySorted(a) && StrictlySorted(b) && a != [] && b != [] && a[0] != b[0]
    requires forall x :: x in a ==> x in b
    ensures forall x :: x in a ==> x in b[1..]
  {
    hide Less;
    assert a[0] in b;
    TailMembers(b, a[0]);
    TailSorted(b);
    TailSorted(a);
    forall x | x in a ensures x in b[1..] {
      TailMembers(b, x);
      TailMembers(a, x);
      if x == b[0] {
        LessAsymmetric(b[0], a[0]);
      }
    }
  }

  lemma SourcedInUnion(dicts: seq<seq<Term>>, m: Merge)
    requires Shaped(dicts, m) && Sourced(dicts, m)
    ensures forall x :: x in m.terms ==> x in Union(dicts)
  {
    hide SortUnique, Flatten;
    SortUniqueIs(Flatten(dicts));
    forall x | x in m.terms ensures x in Union(dicts) {
      var i :| 0 <= i < |m.terms| && m.terms[i] == x;
      assert HasSource(dicts, m.pos, m.terms[i]);
      var s: nat, o: nat :| Consumed(dicts, m.pos, s, o, m.terms[i]);
      SortedTerms.FlattenMembers(dicts, s);
      assert x in dicts[s];
    }
  }

  ghost predicate AllConsumed(dicts: seq<seq<Term>>, pos: seq<nat>) {
    |pos| == |dicts| && forall s :: 0 <= s < |dicts| ==> pos[s] == |dicts[s]|
  }

  lemma UnionIs(dicts: seq<seq<Term>>, m: Merge)
    requires Merging(dicts, m) && AllConsumed(dicts, m.pos)
    ensures m.terms == Union(dicts)
  {
    hide SortUnique, Flatten, Less, MapsTo, Ahead, Sourced;
    SortUniqueIs(Flatten(dicts));
    SourcedInUnion(dicts, m);
    forall x | x in Union(dicts) ensures x in m.terms {
      var s := SortedTerms.FlattenHas(dicts, x);
      var o :| 0 <= o < |dicts[s]| && dicts[s][o] == x;
      ConsumedIsKept(dicts, m, s, o);
    }
    SameMembers(m.terms, Union(dicts));
  }

  lemma ConsumedIsKept(dicts: seq<seq<Term>>, m: Merge, s: nat, o: nat)
    requires Shaped(dicts, m) && Mapped(dicts, m) && s < |dicts| && o < m.pos[s]
    ensures dicts[s][o] in m.terms
  {
    assert MapsTo(m.terms, m.remap[s], dicts[s], o);
  }

  lemma RemapAscends(dicts: seq<seq<Term>>, m: Merge, s: nat)
    requires AllSorted(dicts) && Merging(dicts, m) && AllConsumed(dicts, m.pos) && s < |dicts|
    ensures Ascending(m.remap[s])
  {
    hide Less, Sourced, Ahead;
    var r := m.remap[s];
    forall i, j | 0 <= i < j < |r| ensures r[i] < r[j] {
      assert MapsTo(m.terms, r, dicts[s], i) && MapsTo(m.terms, r, dicts[s], j);
      assert Less(dicts[s][i], dicts[s][j]);
      if r[i] == r[j] {
        LessIrreflexive(dicts[s][i]);
      } else if r[i] > r[j] {
        LessAsymmetric(m.terms[r[j]], m.terms[r[i]]);
      }
    }
  }

  lemma Finished(dicts: seq<seq<Term>>, m: Merge)
    requires AllSorted(dicts) && Merging(dicts, m) && AllConsumed(dicts, m.pos)
    ensures m.terms == Union(dicts) && Remaps(dicts, Union(dicts), m.remap)
  {
    hide Less, Sourced, Ahead, SortUnique, Flatten, StrictlySorted, Ascending;
    UnionIs(dicts, m);
    forall s | 0 <= s < |dicts| ensures Ascending(m.remap[s]) {
      RemapAscends(dicts, m, s);
    }
  }

  // ----- the build ------------------------------------------------------------------------------

  // The dictionary built so far holds the merged terms, the last from `last` on.
  ghost predicate Holds(d: Dictionary, last: Option<nat>, terms: seq<Term>) {
    && d == Layout(I32, terms) && d.offsets != [] && d.offsets[|d.offsets| - 1] == |d.bytes|
    && |d.offsets| == |terms| + 1 && |d.bytes| < TWO_31
    && match last
       case None => terms == []
       case Some(start) => terms != [] && start <= |d.bytes| && d.bytes[start..] == terms[|terms| - 1]
  }

  // Emits a term unless it repeats the last one.
  method Emit(d: Dictionary, last: Option<nat>, t: Term, ghost terms: seq<Term>)
    returns (r: Result<(Dictionary, Option<nat>)>)
    requires Holds(d, last, terms)
    ensures r.Ok? <==> |Layout(I32, Emitted(terms, t)).bytes| < TWO_31
    ensures r.Ok? ==> Holds(r.value.0, r.value.1, Emitted(terms, t))
    ensures r.Err? ==> r.error == Unsupported
  {
    hide PushAll;
    var end := d.offsets[|d.offsets| - 1];
    var isDup := last.Some? && d.bytes[last.value..end] == t;
    assert isDup <==> terms != [] && terms[|terms| - 1] == t;
    if isDup {
      return Ok((d, last));
    }
    PushAllAppend(I32, NO_TERMS, terms, [t]);
    PushOne(I32, d, t);
    var bytes := d.bytes + t;
    if |bytes| >= TWO_31 {
      return Err(Unsupported);
    }
    return Ok((Dictionary(bytes, d.offsets + [|bytes|]), Some(|d.bytes|)));
  }

  method StartHeap(dicts: seq<seq<Term>>, ghost pos: seq<nat>) returns (heap: set<HeapEntry>)
    requires |pos| == |dicts| && forall s :: 0 <= s < |pos| ==> pos[s] == 0
    ensures Heads(dicts, pos, heap)
  {
    heap := {};
    for seg := 0 to |dicts|
      invariant forall e :: e in heap ==> e.seg < seg && e.ord == 0 < |dicts[e.seg]| && e.term == dicts[e.seg][0]
      invariant forall s: nat :: s < seg && dicts[s] != [] ==> HeapEntry(dicts[s][0], s, 0) in heap
    {
      if dicts[seg] != [] {
        heap := heap + {HeapEntry(dicts[seg][0], seg, 0)};
      }
    }
  }

  method ZeroRemaps(dicts: seq<seq<Term>>) returns (remap: seq<seq<i32>>)
    ensures |remap| == |dicts| && forall s :: 0 <= s < |dicts| ==> |remap[s]| == |dicts[s]|
  {
    remap := [];
    for s := 0 to |dicts|
      invariant |remap| == s && forall k :: 0 <= k < s ==> |remap[k]| == |dicts[k]|
    {
      remap := remap + [seq<i32>(|dicts[s]|, _ => 0)];
    }
  }

  lemma FirstMerge(dicts: seq<seq<Term>>, pos: seq<nat>, remap: seq<seq<i32>>)
    requires |pos| == |dicts| == |remap| && forall s :: 0 <= s < |pos| ==> pos[s] == 0
    requires forall s :: 0 <= s < |dicts| ==> |remap[s]| == |dicts[s]|
    ensures Merging(dicts, Merge(pos, [], remap)) && Total(pos) == 0
  {
    TotalZero(pos);
  }

  lemma {:induction false} TotalZero(pos: seq<nat>)
    requires forall s :: 0 <= s < |pos| ==> pos[s] == 0
    ensures Total(pos) == 0
  {
    if pos != [] {
      TotalZero(pos[1..]);
    }
  }

  // One pop: what the method's variables become is a step of the merge.
  lemma PopStep(dicts: seq<seq<Term>>, m: Merge, heap: set<HeapEntry>, e: HeapEntry, d: Dictionary)
    requires AllSorted(dicts) && Merging(dicts, m) && Heads(dicts, m.pos, heap) && IsLeast(e, heap)
    requires d == Layout(I32, Emitted(m.terms, e.term)) && |d.bytes| < TWO_31
    ensures e.seg < |m.pos| == |m.remap| == |dicts| && e.ord < |m.remap[e.seg]| == |dicts[e.seg]|
    ensures |Emitted(m.terms, e.term)| <= TWO_31
    ensures Merging(dicts, Step(m, e)) && Heads(dicts, Step(m, e).pos, (heap - {e}) + NextHead(dicts, e))
    ensures Total(Step(m, e).pos) == Total(m.pos) + 1 <= Total(Lengths(dicts))
  {
    hide Less, Emitted, Before, PushAll, Mapped, Sourced, Ahead, StrictlySorted;
    StepSorted(dicts, m, heap, e);
    TermsFitBytes(NO_TERMS, Emitted(m.terms, e.term));
    MergeStep(dicts, m, heap, e);
    TotalBump(m.pos, e.seg);
    TotalBelow(Step(m, e).pos, Lengths(dicts));
  }

  lemma HeapEmpty(dicts: seq<seq<Term>>, m: Merge)
    requires Shaped(dicts, m) && Heads(dicts, m.pos, {})
    ensures AllConsumed(dicts, m.pos)
    ensures Total(m.pos) == Total(Lengths(dicts))
  {
    assert m.pos == Lengths(dicts);
  }

  lemma TooManyBytes(dicts: seq<seq<Term>>, m: Merge, heap: set<HeapEntry>, e: HeapEntry)
    requires Merging(dicts, m) && Heads(dicts, m.pos, heap) && e in heap
    requires |Layout(I32, Emitted(m.terms, e.term)).bytes| >= TWO_31
    ensures |Layout(I32, Union(dicts)).bytes| >= TWO_31
  {
    hide Less, PushAll, SortUnique, Flatten;
    var terms := Emitted(m.terms, e.term);
    StepSorted(dicts, m, heap, e);
    SourcedInUnion(dicts, m);
    SortUniqueIs(Flatten(dicts));
    SortedTerms.FlattenMembers(dicts, e.seg);
    assert e.term in dicts[e.seg];
    FewerBytes(terms, Union(dicts));
    LayoutBytes(I32, NO_TERMS, terms);
    LayoutBytes(I32, NO_TERMS, Union(dicts));
  }

  method Build(dicts: seq<seq<Term>>) returns (r: Result<(Dictionary, seq<seq<i32>>)>, ghost pops: nat)
    requires AllSorted(dicts)
    ensures r.Ok? <==> |Layout(I32, Union(dicts)).bytes| < TWO_31
    ensures r.Ok? ==> r.value.0 == Layout(I32, Union(dicts)) && Remaps(dicts, Union(dicts), r.value.1)
    ensures Climbs(Union(dicts)) && forall t :: t in Union(dicts) <==> t in Flatten(dicts)
    ensures r.Ok? ==> pops == Total(Lengths(dicts))
    ensures r.Err? ==> r.error == Unsupported
  {
    hide Less, Before, PushAll, SortUnique, Flatten, AllSorted, Merging, Heads, Remaps, AllConsumed,
         Climbs;
    SortUniqueMeans(Flatten(dicts), Union(dicts));
    var remap := ZeroRemaps(dicts);
    ghost var m := Merge(seq(|dicts|, _ => 0), [], remap);
    FirstMerge(dicts, m.pos, remap);
    var d, last := NO_TERMS, None;
    assert Layout(I32, []) == NO_TERMS by { NothingPushed(); }
    var heap := StartHeap(dicts, m.pos);
    pops := 0;
    while heap != {}
      invariant Merging(dicts, m) && Heads(dicts, m.pos, heap) && m.remap == remap
      invariant Holds(d, last, m.terms)
      invariant pops == Total(m.pos) <= Total(Lengths(dicts))
      decreases Total(Lengths(dicts)) - pops
    {
      var e, rest := Pop(heap);
      var emitted := Emit(d, last, e.term, m.terms);
      if emitted.Err? {
        TooManyBytes(dicts, m, heap, e);
        return Err(emitted.error), pops;
      }
      d, last := emitted.value.0, emitted.value.1;
      PopStep(dicts, m, heap, e, d);
      var global: i32 := |d.offsets| - 2;
      remap := remap[e.seg := Assign(remap[e.seg], e.ord, global)];
      heap := rest + NextHead(dicts, e);
      m := Step(m, e);
      pops := pops + 1;
    }
    MergedShape(dicts, m);
    HeapEmpty(dicts, m);
    Finished(dicts, m);
    return Ok((d, remap)), pops;
  }

  lemma NothingPushed()
    ensures Layout(I32, []) == NO_TERMS
  {
  }

  lemma MergedShape(dicts: seq<seq<Term>>, m: Merge)
    requires Merging(dicts, m)
    ensures Shaped(dicts, m)
  {
  }
}
