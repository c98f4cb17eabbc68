// Byte strings in unsigned lexicographic order: the order of every dictionary.
module Lex {
  import opened Bits
  import opened Wire

  type Term = seq<byte>

  predicate Less(a: Term, b: Term)
    decreases |b|
  {
    b != [] && (a == [] || a[0] < b[0] || (a[0] == b[0] && Less(a[1..], b[1..])))
  }

  // Strictly ascending: sorted, without duplicates.
  ghost predicate StrictlySorted(terms: seq<Term>) {
    forall i, j :: 0 <= i < j < |terms| ==> Less(terms[i], terms[j])
  }

  lemma {:induction false} LessTransitive(a: Term, b: Term, c: Term)
    requires Less(a, b) && Less(b, c)
    ensures Less(a, c)
    decreases |c|
  {
    if a != [] && a[0] == b[0] && b[0] == c[0] {
      LessTransitive(a[1..], b[1..], c[1..]);
    }
  }

  lemma {:induction false} LessTotal(a: Term, b: Term)
    ensures Less(a, b) || a == b || Less(b, a)
    decreases |a|
  {
    if a != [] && b != [] && a[0] == b[0] {
      LessTotal(a[1..], b[1..]);
      assert a == [a[0]] + a[1..] && b == [b[0]] + b[1..];
    }
  }

  lemma {:induction false} LessIrreflexive(a: Term)
    ensures !Less(a, a)
    decreases |a|
  {
    if a != [] {
      LessIrreflexive(a[1..]);
    }
  }

  lemma LessAsymmetric(a: Term, b: Term)
    requires Less(a, b)
    ensures !Less(b, a) && a != b
  {
    LessIrreflexive(a);
    if Less(b, a) {
      LessTransitive(a, b, a);
    }
  }

  // Up to k the two agree, and there a ends or has the smaller byte.
  predicate FirstDifference(a: Term, b: Term, k: nat) {
    k <= |a| && k < |b| && a[..k] == b[..k] && (k == |a| || a[k] < b[k])
  }

  ghost predicate Precedes(a: Term, b: Term) { exists k: nat :: FirstDifference(a, b, k) }

  lemma {:induction false} LessIs(a: Term, b: Term)
    ensures Less(a, b) <==> Precedes(a, b)
    decreases |b|
  {
    if a == [] || b == [] || a[0] != b[0] {
      DifferAtOnce(a, b);
    } else {
      LessIs(a[1..], b[1..]);
      PrecedesTail(a, b);
    }
  }

  lemma DifferAtOnce(a: Term, b: Term)
    requires a == [] || b == [] || a[0] != b[0]
    ensures Precedes(a, b) <==> b != [] && (a == [] || a[0] < b[0])
  {
    if b != [] && (a == [] || a[0] < b[0]) {
      assert FirstDifference(a, b, 0);
    }
    if Precedes(a, b) {
      var k: nat :| FirstDifference(a, b, k);
      FirstAgrees(a, b, k);
    }
  }

  lemma FirstAgrees(a: Term, b: Term, k: nat)
    requires FirstDifference(a, b, k)
    ensures k > 0 ==> a != [] && a[0] == b[0]
  {
    if k > 0 {
      assert a[..k][0] == b[..k][0];
    }
  }

  lemma PrecedesTail(a: Term, b: Term)
    requires a != [] && b != [] && a[0] == b[0]
    ensures Precedes(a, b) <==> Precedes(a[1..], b[1..])
  {
    if Precedes(a, b) {
      var k: nat :| FirstDifference(a, b, k);
      assert a[1..][..k - 1] == a[..k][1..] && b[1..][..k - 1] == b[..k][1..];
      assert FirstDifference(a[1..], b[1..], k - 1);
    }
    if Precedes(a[1..], b[1..]) {
      var k: nat :| FirstDifference(a[1..], b[1..], k);
      assert a[..k + 1] == [a[0]] + a[1..][..k] && b[..k + 1] == [b[0]] + b[1..][..k];
      assert FirstDifference(a, b, k + 1);
    }
  }

  // Every term comes before the next one.
  ghost predicate Climbs(terms: seq<Term>) { forall i: nat :: i < |terms| ==> ClimbsAt(terms, i) }

  ghost predicate ClimbsAt(terms: seq<Term>, i: nat) { i + 1 < |terms| ==> Precedes(terms[i], terms[i + 1]) }

  lemma SortedIs(terms: seq<Term>)
    ensures StrictlySorted(terms) <==> Climbs(terms)
  {
    hide Less, Precedes;
    if StrictlySorted(terms) {
      forall i: nat | i < |terms| ensures ClimbsAt(terms, i) {
        if i + 1 < |terms| {
          LessIs(terms[i], terms[i + 1]);
        }
      }
    }
    if Climbs(terms) {
      forall i, j | 0 <= i < j < |terms| ensures Less(terms[i], terms[j]) {
        ClimbsFar(terms, i, j);
      }
    }
  }

  lemma {:induction false} ClimbsFar(terms: seq<Term>, i: nat, j: nat)
    requires Climbs(terms) && i < j < |terms|
    ensures Less(terms[i], terms[j])
    decreases j
  {
    hide Less, Precedes;
    var k := j - 1;
    assert ClimbsAt(terms, k);
    LessIs(terms[k], terms[j]);
    if i < k {
      ClimbsFar(terms, i, k);
      LessTransitive(terms[i], terms[k], terms[j]);
    }
  }

  // The length of the common prefix.
  function CommonPrefix(a: Term, b: Term): (n: nat)
    ensures n <= |a| && n <= |b|
    ensures a[..n] == b[..n]
    decreases |a|
  {
    if a == [] || b == [] || a[0] != b[0] then 0
    else
      var n := CommonPrefix(a[1..], b[1..]);
      assert a[..n + 1] == [a[0]] + a[1..][..n] && b[..n + 1] == [b[0]] + b[1..][..n];
      n + 1
  }

  // No longer prefix is common.
  lemma {:induction false} CommonPrefixLongest(a: Term, b: Term, n: nat)
    requires n <= |a| && n <= |b|
    ensures n == CommonPrefix(a, b) <==> a[..n] == b[..n] && (n == |a| || n == |b| || a[n] != b[n])
    decreases |a|
  {
    if n > 0 {
      SamePrefix(a, b, n);
      if a[0] == b[0] {
        CommonPrefixLongest(a[1..], b[1..], n - 1);
      }
    }
  }

  lemma SamePrefix(a: Term, b: Term, n: nat)
    requires 0 < n <= |a| && n <= |b|
    ensures a[..n] == b[..n] <==> a[0] == b[0] && a[1..][..n - 1] == b[1..][..n - 1]
  {
    assert a[..n] == [a[0]] + a[1..][..n - 1] && b[..n] == [b[0]] + b[1..][..n - 1];
  }

  // A term is never a prefix of one before it.
  lemma {:induction false} PrefixShorter(a: Term, b: Term)
    requires Less(a, b)
    ensures CommonPrefix(a, b) < |b|
    decreases |a|
  {
    if a != [] && a[0] == b[0] {
      PrefixShorter(a[1..], b[1..]);
    }
  }

  // ----- sorting ---------------------------------------------------------------------

  function Insert(t: Term, s: seq<Term>): seq<Term> {
    if s == [] then [t]
    else if t == s[0] then s
    else if Less(t, s[0]) then [t] + s
    else [s[0]] + Insert(t, s[1..])
  }

  // sort, then dedup
  function SortUnique(terms: seq<Term>): seq<Term> {
    if terms == [] then [] else Insert(terms[0], SortUnique(terms[1..]))
  }

  lemma {:induction false} InsertMembers(t: Term, s: seq<Term>, x: Term)
    ensures x in Insert(t, s) <==> x == t || x in s
  {
    if s != [] && t != s[0] && !Less(t, s[0]) {
      InsertMembers(t, s[1..], x);
      assert s == [s[0]] + s[1..];
    }
  }

  lemma TailSorted(s: seq<Term>)
    requires StrictlySorted(s) && s != []
    ensures StrictlySorted(s[1..]) && forall x :: x in s[1..] ==> Less(s[0], x)
  {
    hide Less;
  }

  lemma ConsSorted(t: Term, s: seq<Term>)
    requires StrictlySorted(s) && forall x :: x in s ==> Less(t, x)
    ensures StrictlySorted([t] + s)
  {
    hide Less;
    var all := [t] + s;
    forall i, j | 0 <= i < j < |all| ensures Less(all[i], all[j]) {
      assert all[j] == s[j - 1];
      if i > 0 {
        assert all[i] == s[i - 1];
      }
    }
  }

  lemma {:induction false} InsertSorted(t: Term, s: seq<Term>)
    requires StrictlySorted(s)
    ensures StrictlySorted(Insert(t, s))
  {
    hide Less;
    if s == [] {
    } else if t == s[0] {
    } else if Less(t, s[0]) {
      TailSorted(s);
      forall x | x in s ensures Less(t, x) {
        if x != s[0] {
          assert x in s[1..];
          LessTransitive(t, s[0], x);
        }
      }
      ConsSorted(t, s);
    } else {
      TailSorted(s);
      InsertSorted(t, s[1..]);
      LessTotal(t, s[0]);
      forall x | x in Insert(t, s[1..]) ensures Less(s[0], x) {
        InsertMembers(t, s[1..], x);
      }
      ConsSorted(s[0], Insert(t, s[1..]));
    }
  }

  lemma {:induction false} SortUniqueIs(terms: seq<Term>)
    ensures StrictlySorted(SortUnique(terms))
    ensures forall x :: x in SortUnique(terms) <==> x in terms
  {
    hide Less, Insert;
    if terms != [] {
      SortUniqueIs(terms[1..]);
      InsertSorted(terms[0], SortUnique(terms[1..]));
      forall x ensures x in SortUnique(terms) <==> x in terms {
        InsertMembers(terms[0], SortUnique(terms[1..]), x);
      }
    }
  }

  // Sorting and deduplicating gives the one list with these members in which every term
  // comes before the next, byte by byte.
  lemma SortUniqueMeans(terms: seq<Term>, s: seq<Term>)
    ensures s == SortUnique(terms) <==> Climbs(s) && forall x :: x in s <==> x in terms
  {
    hide Less, Climbs, SortUnique;
    SortUniqueIs(terms);
    SortedIs(s);
    SortedIs(SortUnique(terms));
    if Climbs(s) && forall x :: x in s <==> x in terms {
      SameMembers(s, SortUnique(terms));
    }
  }

  // Strictly sorted lists with the same members are the same list.
  lemma {:induction false} SameMembers(a: seq<Term>, b: seq<Term>)
    requires StrictlySorted(a) && StrictlySorted(b) && forall x :: x in a <==> x in b
    ensures a == b
  {
    hide Less;
    assert a != [] ==> a[0] in a;
    assert b != [] ==> b[0] in b;
    if a != [] && b != [] {
      SameFirst(a, b);
      TailSorted(a);
      TailSorted(b);
      forall x ensures x in a[1..] <==> x in b[1..] {
        TailMembers(a, x);
        TailMembers(b, x);
      }
      SameMembers(a[1..], b[1..]);
      assert a == [a[0]] + a[1..] && b == [b[0]] + b[1..];
    }
  }

  lemma TailMembers(s: seq<Term>, x: Term)
    requires StrictlySorted(s) && s != []
    ensures x in s[1..] <==> x in s && x != s[0]
  {
    hide Less;
    LessIrreflexive(s[0]);
    TailSorted(s);
    assert s == [s[0]] + s[1..];
  }

  lemma SameFirst(a: seq<Term>, b: seq<Term>)
    requires StrictlySorted(a) && StrictlySorted(b) && a != [] && b != [] && forall x :: x in a <==> x in b
    ensures a[0] == b[0]
  {
    hide Less;
    assert a[0] in b && b[0] in a;
    var i :| 0 <= i < |b| && b[i] == a[0];
    var j :| 0 <= j < |a| && a[j] == b[0];
    if i > 0 && j > 0 {
      LessAsymmetric(b[0], a[0]);
    }
  }

  // ----- ords -------------------------------------------------------------------------

  // The position of t in a list that has it.
  function OrdOf(dict: seq<Term>, t: Term): (o: nat)
    ensures o <= |dict| && (t in dict ==> o < |dict| && dict[o] == t)
  {
    if dict == [] || dict[0] == t then 0 else 1 + OrdOf(dict[1..], t)
  }

  lemma OrdUnique(dict: seq<Term>, o: nat)
    requires StrictlySorted(dict) && o < |dict|
    ensures OrdOf(dict, dict[o]) == o
  {
    hide Less;
    var k := OrdOf(dict, dict[o]);
    if k != o {
      LessIrreflexive(dict[o]);
    }
  }

  // Ordinals are in the order of their terms.
  lemma OrdsFollow(terms: seq<Term>, t: Term, u: Term)
    requires t in terms && u in terms
    ensures var dict := SortUnique(terms);
            OrdOf(dict, t) < |dict| && OrdOf(dict, u) < |dict| && (OrdOf(dict, t) < OrdOf(dict, u) <==> Precedes(t, u))
  {
    hide Less, Precedes, SortUnique;
    SortUniqueIs(terms);
    LessIs(t, u);
    LessIrreflexive(t);
    if Less(t, u) && OrdOf(SortUnique(terms), u) <= OrdOf(SortUnique(terms), t) {
      LessAsymmetric(t, u);
    }
  }

  // ----- flat dictionaries --------------------------------------------------------

  // How a dictionary keeps its offsets: cast to 32 bits without a check, or in full.
  datatype OffsetType = I32 | U64

  function Offset(w: OffsetType, n: nat): int {
    match w case I32 => AsI32(n) case U64 => n
  }

  // Concatenated term bytes and, for each term, where it ends.
  datatype Dictionary = Dictionary(bytes: seq<byte>, offsets: seq<int>) {
    predicate Has(ord: int) { 0 <= ord < |offsets| - 1 && 0 <= offsets[ord] <= offsets[ord + 1] <= |bytes| }

    // Reading past what it has is an index out of range.
    function TermAt(ord: int): Option<Term> {
      if Has(ord) then Some(bytes[offsets[ord]..offsets[ord + 1]]) else None
    }
  }

  const NO_TERMS := Dictionary([], [0])

  function Push(w: OffsetType, d: Dictionary, term: Term): Dictionary {
    Dictionary(d.bytes + term, d.offsets + [Offset(w, |d.bytes| + |term|)])
  }

  function PushAll(w: OffsetType, d: Dictionary, terms: seq<Term>): Dictionary
    decreases |terms|
  {
    if terms == [] then d else PushAll(w, Push(w, d, terms[0]), terms[1..])
  }

  function Layout(w: OffsetType, terms: seq<Term>): Dictionary { PushAll(w, NO_TERMS, terms) }

  lemma {:induction false} PushAllAppend(w: OffsetType, d: Dictionary, a: seq<Term>, b: seq<Term>)
    ensures PushAll(w, d, a + b) == PushAll(w, PushAll(w, d, a), b)
    decreases |a|
  {
    if a == [] {
      assert a + b == b;
    } else {
      assert (a + b)[1..] == a[1..] + b;
      PushAllAppend(w, Push(w, d, a[0]), a[1..], b);
    }
  }

  lemma PushOne(w: OffsetType, d: Dictionary, term: Term)
    ensures PushAll(w, d, [term]) == Push(w, d, term)
  {
    assert [term][1..] == [];
  }

  lemma {:induction false} PushedKeeps(w: OffsetType, d: Dictionary, terms: seq<Term>)
    ensures var all := PushAll(w, d, terms);
            && |all.offsets| == |d.offsets| + |terms| && |d.bytes| <= |all.bytes|
            && all.bytes[..|d.bytes|] == d.bytes && all.offsets[..|d.offsets|] == d.offsets
    decreases |terms|
  {
    if terms != [] {
      PushedKeeps(w, Push(w, d, terms[0]), terms[1..]);
      var all := PushAll(w, d, terms);
      assert all.bytes[..|d.bytes|] == Push(w, d, terms[0]).bytes[..|d.bytes|];
      assert all.offsets[..|d.offsets|] == Push(w, d, terms[0]).offsets[..|d.offsets|];
    }
  }

  // The bytes of a list of terms.
  function Bytes(terms: seq<Term>): nat {
    if terms == [] then 0 else |terms[0]| + Bytes(terms[1..])
  }

  lemma {:induction false} LayoutBytes(w: OffsetType, d: Dictionary, terms: seq<Term>)
    ensures |PushAll(w, d, terms).bytes| == |d.bytes| + Bytes(terms)
    decreases |terms|
  {
    if terms != [] {
      LayoutBytes(w, Push(w, d, terms[0]), terms[1..]);
    }
  }

  // Every offset of a layout, and the bytes before it.
  lemma {:induction false} LayoutAt(w: OffsetType, d: Dictionary, terms: seq<Term>, i: nat)
    requires d.offsets != [] && d.offsets[|d.offsets| - 1] == Offset(w, |d.bytes|) && i < |terms|
    ensures var all, at, n := PushAll(w, d, terms), |d.bytes| + Bytes(terms[..i]), |d.offsets| - 1 + i;
            && |all.offsets| == |d.offsets| + |terms| && at + |terms[i]| <= |all.bytes|
            && all.offsets[n] == Offset(w, at) && all.offsets[n + 1] == Offset(w, at + |terms[i]|)
            && all.bytes[at..at + |terms[i]|] == terms[i]
    decreases |terms|
  {
    var d', all := Push(w, d, terms[0]), PushAll(w, d, terms);
    PushedKeeps(w, d', terms[1..]);
    if i > 0 {
      assert terms[..i][0] == terms[0] && terms[..i][1..] == terms[1..][..i - 1];
      LayoutAt(w, d', terms[1..], i - 1);
    } else {
      assert all.offsets[|d.offsets| - 1] == d'.offsets[|d.offsets| - 1] && all.offsets[|d.offsets|] == d'.offsets[|d.offsets|];
      assert all.bytes[|d.bytes|..|d'.bytes|] == all.bytes[..|d'.bytes|][|d.bytes|..];
      assert d'.bytes[|d.bytes|..] == terms[0];
    }
  }

  // Few enough bytes for every 32-bit offset.
  predicate OffsetsFit(terms: seq<Term>) { Bytes(terms) < TWO_31 }

  lemma {:induction false} BytesWithin(terms: seq<Term>, i: nat)
    requires i < |terms|
    ensures Bytes(terms[..i]) + |terms[i]| == Bytes(terms[..i + 1]) <= Bytes(terms)
    decreases |terms|
  {
    assert terms[..i + 1][0] == terms[0] && terms[..i + 1][1..] == terms[1..][..i];
    if i > 0 {
      assert terms[..i][0] == terms[0] && terms[..i][1..] == terms[1..][..i - 1];
      BytesWithin(terms[1..], i - 1);
    }
  }

  lemma LayoutHolds(w: OffsetType, terms: seq<Term>, i: nat)
    requires i < |terms| && (w.U64? || OffsetsFit(terms))
    ensures Layout(w, terms).TermAt(i) == Some(terms[i])
  {
    hide PushAll, Bytes;
    LayoutAt(w, NO_TERMS, terms, i);
    BytesWithin(terms, i);
    NoBytes();
  }

  lemma NoBytes()
    ensures Bytes([]) == 0
  {
  }

  // Past 2^31 bytes some term cannot be read back: the first whose end no longer fits.
  lemma LayoutOverflows(terms: seq<Term>) returns (i: nat)
    requires !OffsetsFit(terms)
    ensures i < |terms| && Layout(I32, terms).TermAt(i) != Some(terms[i])
  {
    hide PushAll, Bytes;
    NoBytes();
    i := 0;
    assert terms[..0] == [] && terms[..|terms|] == terms;
    while i < |terms| && Bytes(terms[..i + 1]) < TWO_31
      invariant i <= |terms| && Bytes(terms[..i]) < TWO_31
    {
      i := i + 1;
    }
    LayoutAt(I32, NO_TERMS, terms, i);
    BytesWithin(terms, i);
  }

  // A dictionary of 32-bit offsets gives back its terms exactly when they have
  // fewer than 2^31 bytes altogether.
  lemma LayoutExact(terms: seq<Term>)
    ensures (forall i: nat :: i < |terms| ==> Layout(I32, terms).TermAt(i) == Some(terms[i])) <==> OffsetsFit(terms)
  {
    hide Layout, OffsetsFit;
    if OffsetsFit(terms) {
      forall i: nat | i < |terms| ensures Layout(I32, terms).TermAt(i) == Some(terms[i]) {
        LayoutHolds(I32, terms, i);
      }
    } else {
      var i := LayoutOverflows(terms);
    }
  }
}
