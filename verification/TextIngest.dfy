// The host side of the device ingest: compaction of the vocabulary table, exact
// tokenization of the spans the kernel left, global ords and the shared row
// builder. For every interleaving of the kernel the field is the one the host
// builders give.
module TextIngest {
  import opened Bits
  import opened Wire
  import opened Lex
  import opened StatsPass
  import opened Analyzer
  import opened Csr
  import opened Inverted
  import opened IndexBuild
  import opened ParallelBuild
  import opened Machines
  import opened TextKernel
  import opened TextMachine
  import opened TextInvariant
  import opened TextProgress
  import opened TextRuns
  import opened TextResult

  const COMPACT_CAP := 0x20_0000

  // What the host downloads; the logs are not part of it.
  datatype Device = Device(table: seq<nat>, pairs: seq<nat>, pairCount: nat, spans: seq<nat>, spanCount: nat,
                           docTokens: seq<nat>)

  function Download(m: Machine): Device {
    Device(m.table, m.pairs, m.pairCount, m.spans, m.spanCount, m.docTokens)
  }

  function DirtyRuns(text: seq<byte>): set<nat> { set i | 0 <= i < |text| && Dirty(text, i) }

  // ----- the vocabulary -----------------------------------------------------------------

  // The occupied slots, in the order their threads reach the counter.
  method CompactTable(table: seq<nat>) returns (slots: seq<nat>, locs: seq<nat>)
    requires |table| == TABLE_CAP
    ensures |locs| == |slots| && NoDuplicates(slots)
    ensures forall k :: 0 <= k < |slots| ==> slots[k] < TABLE_CAP && locs[k] == table[slots[k]] != 0
    ensures forall s :: 0 <= s < TABLE_CAP && table[s] != 0 ==> s in slots
  {
    slots, locs := [], [];
    var left := set s: nat | 0 <= s < TABLE_CAP && table[s] != 0;
    while left != {}
      invariant forall s :: s in left ==> s < TABLE_CAP && table[s] != 0 && s !in slots
      invariant |locs| == |slots| && NoDuplicates(slots)
      invariant forall k :: 0 <= k < |slots| ==> slots[k] < TABLE_CAP && locs[k] == table[slots[k]] != 0
      invariant forall s :: 0 <= s < TABLE_CAP && table[s] != 0 ==> s in slots || s in left
      decreases left
    {
      var s :| s in left;
      slots, locs := slots + [s], locs + [table[s]];
      left := left - {s};
    }
  }

  // Exactness bounds the occupied slots by the distinct terms.
  lemma OccupiedFit(job: Job, table: seq<nat>, slots: seq<nat>)
    requires Sound(job) && TableOk(job, table) && NoDuplicates(slots)
    requires forall k :: 0 <= k < |slots| ==> slots[k] < TABLE_CAP && table[slots[k]] != 0
    ensures |slots| <= |CleanTerms(job.text)|
  {
    hide Clean, TermAt, Loc, LocStart, CleanTerms, PathTaken;
    var owners := seq(|slots|, k requires 0 <= k < |slots| => SlotTerm(job, table[slots[k]]));
    forall i, j | 0 <= i < j < |slots| ensures owners[i] != owners[j] {
      if owners[i] == owners[j] {
        OneSlot(job, table, slots[i], slots[j], owners[i]);
      }
    }
    forall k | 0 <= k < |slots| ensures owners[k] in CleanTerms(job.text) {
      assert SlotOk(job, table, slots[k]);
      TermListed(job.text, LocStart(table[slots[k]]));
    }
    DistinctWithin(owners, CleanTerms(job.text));
  }

  // Slot to term.
  ghost predicate Names(job: Job, table: seq<nat>, names: map<nat, Term>) {
    && (forall s :: s in names ==> s < |table| && table[s] != 0 && names[s] == SlotTerm(job, table[s]))
    && (forall s :: 0 <= s < |table| && table[s] != 0 ==> s in names)
  }

  method SlotTerms(ghost job: Job, text: seq<byte>, ghost table: seq<nat>, slots: seq<nat>, locs: seq<nat>)
    returns (names: map<nat, Term>)
    requires text == job.text && TableOk(job, table) && |locs| == |slots|
    requires forall k :: 0 <= k < |slots| ==> slots[k] < TABLE_CAP && locs[k] == table[slots[k]] != 0
    requires forall s :: 0 <= s < TABLE_CAP && table[s] != 0 ==> s in slots
    ensures Names(job, table, names)
  {
    hide Clean, SlotOk, TermAt, Loc, LocStart, LocLength, AsciiLower;
    names := map[];
    for k := 0 to |slots|
      invariant forall s :: s in names ==> s < TABLE_CAP && table[s] != 0 && names[s] == SlotTerm(job, table[s])
      invariant forall j :: 0 <= j < k ==> slots[j] in names
    {
      assert SlotOk(job, table, slots[k]);
      StoredTerm(job, table, slots[k]);
      var off, len := LocStart(locs[k]), LocLength(locs[k]);
      var term := seq<byte>(len, i requires 0 <= i < len => AsciiLower(text[off + i]));
      names := names[slots[k] := term];
    }
  }

  lemma StoredTerm(job: Job, table: seq<nat>, s: nat)
    requires s < |table| && SlotOk(job, table, s)
    ensures var off, len := LocStart(table[s]), LocLength(table[s]);
            && off + len <= |job.text|
            && SlotTerm(job, table[s]) == seq<byte>(len, i requires 0 <= i < len => AsciiLower(job.text[off + i]))
  {
    hide AsciiLower, PathTaken, HasWide;
    var i := LocStart(table[s]);
    LocParts(job.text, i);
    assert |TermAt(job.text, i)| == LocLength(table[s]);
  }

  // ----- spans ------------------------------------------------------------------------------

  lemma DecodeStep(b: seq<byte>) returns (c: Scalar)
    requires b != [] && Decode(b).Some?
    ensures EncodeChar(c) <= b && |EncodeChar(c)| > 0 && Decode(b[|EncodeChar(c)|..]).Some?
    ensures Decode(b).value == [c] + Decode(b[|EncodeChar(c)|..]).value
  {
    hide EncodeChar;
    c := DecodeChar(b).value;
  }

  lemma EncodeStep(c: Scalar, rest: seq<Scalar>)
    ensures Encode([c] + rest) == EncodeChar(c) + Encode(rest)
  {
    assert ([c] + rest)[1..] == rest;
  }

  lemma {:induction false} DecodeEncodes(b: seq<byte>)
    requires Decode(b).Some?
    ensures Encode(Decode(b).value) == b
    decreases |b|
  {
    hide EncodeChar, DecodeChar, Encode;
    if b != [] {
      var c := DecodeStep(b);
      var n := |EncodeChar(c)|;
      DecodeEncodes(b[n..]);
      EncodeStep(c, Decode(b[n..]).value);
      assert b == b[..n] + b[n..];
    } else {
      EncodesEmpty();
    }
  }

  // The exact tokens of one span.
  method SpanRun(text: seq<byte>, starts: seq<nat>, packed: nat, ghost i: nat, u: Unicode)
    returns (pairs: seq<(Term, nat)>, doc: nat, n: nat)
    requires AgreesOnAscii(u) && AreStarts(starts, text) && Dirty(text, i) && packed == Loc(text, i)
    ensures doc == DocAt(text, i) && pairs == StoredPairs(text, i, u)
    ensures n == |pairs| && forall k :: 0 <= k < n ==> pairs[k].1 == doc
  {
    hide DocAt, AgreesOnAscii, Tokens, HasWide, TermAt, AreStarts, Loc, LocStart, LocLength, Decode, Encode;
    LocParts(text, i);
    var off, len := LocStart(packed), LocLength(packed);
    doc := FindDoc(starts, text, off);
    var span := text[off..off + len];
    pairs, n := [], 0;
    match Decode(span)
    case None => return;
    case Some(chars) =>
      DecodeEncodes(span);
      var tokens := ForEachToken(chars, span, u);
      for k := 0 to |tokens|
        invariant n == k && pairs == DocPairs(tokens[..k], doc)
      {
        DocPairsSnoc(tokens, k, doc);
        pairs := pairs + [(tokens[k], doc)];
        n := n + 1;
      }
      assert tokens[..|tokens|] == tokens;
  }

  lemma AddRun(text: seq<byte>, log: seq<nat>, j: nat, u: Unicode)
    requires j < |log|
    ensures LogPairs(text, log[..j + 1], u) == LogPairs(text, log[..j], u) + StoredPairs(text, log[j], u)
  {
    hide StoredPairs;
    assert log[..j + 1][..j] == log[..j];
  }

  // Counts after adding the pairs of one document.
  ghost predicate Added(before: seq<nat>, after: seq<nat>, pairs: seq<(Term, nat)>) {
    |after| == |before| && forall d :: 0 <= d < |before| ==> after[d] == before[d] + CountDoc(pairs, d)
  }

  lemma {:induction false} CountOneDoc(pairs: seq<(Term, nat)>, doc: nat, d: nat)
    requires forall k :: 0 <= k < |pairs| ==> pairs[k].1 == doc
    ensures CountDoc(pairs, d) == if d == doc then |pairs| else 0
    decreases |pairs|
  {
    if pairs != [] {
      CountOneDoc(pairs[..|pairs| - 1], doc, d);
    }
  }

  lemma AddedMore(before: seq<nat>, after: seq<nat>, pairs: seq<(Term, nat)>, more: seq<(Term, nat)>, doc: nat)
    requires Added(before, after, pairs) && doc < |before| && forall k :: 0 <= k < |more| ==> more[k].1 == doc
    ensures Added(before, after[doc := after[doc] + |more|], pairs + more)
  {
    hide InDoc;
    forall d | 0 <= d < |before|
      ensures after[doc := after[doc] + |more|][d] == before[d] + CountDoc(pairs + more, d)
    {
      SumAppend(pairs, more, InDoc(d));
      CountOneDoc(more, doc, d);
    }
  }

  // Spans in contiguous parts, one per thread; the outputs follow each other.
  method Retokenize(text: seq<byte>, starts: seq<nat>, spans: seq<nat>, n: nat, ghost log: seq<nat>, threads: nat,
                    docTokens: seq<nat>, u: Unicode)
    returns (pairs: seq<(Term, nat)>, tokens: seq<nat>)
    requires AgreesOnAscii(u) && AreStarts(starts, text) && threads > 0 && |docTokens| == NumDocs(text)
    requires |log| == n <= |spans| && forall j :: 0 <= j < n ==> Dirty(text, log[j]) && spans[j] == Loc(text, log[j])
    ensures pairs == LogPairs(text, log, u) && Added(docTokens, tokens, pairs)
  {
    hide AgreesOnAscii, AreStarts, Dirty, Loc, DocAt, NumDocs, StoredPairs, LogPairs, Added;
    pairs, tokens := [], docTokens;
    NothingAdded(text, docTokens, u);
    var part := if n == 0 then 1 else (n + threads - 1) / threads;
    if n > 0 {
      DivMonotone(threads, n + threads - 1, threads);
    }
    var start := 0;
    assert log[..0] == [];
    while start < n
      invariant start <= n && |tokens| == |docTokens|
      invariant pairs == LogPairs(text, log[..start], u) && Added(docTokens, tokens, pairs)
    {
      var end := if start + part < n then start + part else n;
      for j := start to end
        invariant |tokens| == |docTokens|
        invariant pairs == LogPairs(text, log[..j], u) && Added(docTokens, tokens, pairs)
      {
        var more, doc, count := SpanRun(text, starts, spans[j], log[j], u);
        DirtyDoc(text, log[j]);
        AddRun(text, log, j, u);
        AddedMore(docTokens, tokens, pairs, more, doc);
        pairs := pairs + more;
        tokens := tokens[doc := tokens[doc] + count];
      }
      start := end;
    }
    assert log[..n] == log;
  }

  lemma NothingAdded(text: seq<byte>, docTokens: seq<nat>, u: Unicode)
    ensures LogPairs(text, [], u) == [] && Added(docTokens, docTokens, [])
  {
  }

  lemma DirtyDoc(text: seq<byte>, i: nat)
    requires Dirty(text, i)
    ensures DocAt(text, i) < NumDocs(text)
  {
    DocInRange(text, i);
  }

  // ----- the dictionary ---------------------------------------------------------------------------

  lemma MetSame(a: seq<(Term, nat)>, b: seq<(Term, nat)>, t: Term)
    requires multiset(a) == multiset(b) && Met(a, t)
    ensures Met(b, t)
  {
    var j :| 0 <= j < |a| && a[j].0 == t;
    assert a[j] in multiset(a);
    assert a[j] in b;
  }

  lemma MetDocs(docs: seq<seq<Term>>, t: Term)
    ensures Met(TokenPairs(docs, 0), t) <==> t in Flatten(docs)
  {
    hide Flatten, TokenPairs;
    PairsOfDocs(docs, 0);
    if t in Flatten(docs) {
      var j := TermPaired(docs, 0, t);
    }
  }

  // Slots hold exactly the terms of the claimed runs.
  lemma SlotsAreClaims(job: Job, m: Machine, names: map<nat, Term>, u: Unicode, t: Term)
    requires Sound(job) && Inv(job, m) && Finished(job, m) && Names(job, m.table, names)
    ensures t in names.Values <==> Met(LogPairs(job.text, m.claims, u), t)
  {
    hide Clean, TermAt, Loc, LocStart, DocAt, Finished, Shape, PcsOk, Logs, SpansOk, CountsOk, PathTaken, LogPairs, KeyOrd, KeyDoc;
    FinalLogs(job, m);
    CleanPairs(job.text, m.claims, u, 0);
    var pairs := LogPairs(job.text, m.claims, u);
    if t in names.Values {
      var s :| s in names && names[s] == t;
      assert SlotOk(job, m.table, s);
      assert LocStart(m.table[s]) in m.claims;
      var p :| 0 <= p < |m.claims| && m.claims[p] == LocStart(m.table[s]);
      assert pairs[p].0 == t;
    }
    if Met(pairs, t) {
      var p :| 0 <= p < |pairs| && pairs[p].0 == t;
      FinalPair(job, m, p);
      var s := KeyOrd(m.pairs[p]);
      assert s in names && names[s] == t;
    }
  }

  // At the end every pair holds its run's slot and document.
  lemma FinalPair(job: Job, m: Machine, p: nat)
    requires Sound(job) && Inv(job, m) && Finished(job, m) && p < |m.claims|
    ensures p < |m.pairs| && IsPair(job, m.table, m.pairs[p], m.claims[p])
  {
    hide Clean, Dirty, Finished, Shape, PcsOk, SpansOk, CountsOk, TableOk, IsPair, StageOf;
    assert m.claims[p] in m.claims;
    assert Kind(job, false, m.claims[p]);
    AllPassed(job, m, m.claims[p]);
    assert PairAt(job, m, p);
  }

  lemma FinalSpan(job: Job, m: Machine, d: nat)
    requires Sound(job) && Inv(job, m) && Finished(job, m) && d < |m.spanClaims| && d < job.SpanCap()
    ensures d < |m.spans| && m.spans[d] == Loc(job.text, m.spanClaims[d]) && Dirty(job.text, m.spanClaims[d])
  {
    hide Clean, Dirty, Finished, Shape, PcsOk, PairsOk, CountsOk, TableOk, StageOf, Loc;
    assert m.spanClaims[d] in m.spanClaims;
    assert Kind(job, true, m.spanClaims[d]);
    AllPassed(job, m, m.spanClaims[d]);
    assert SpanAt(job, m, d);
  }

  method Vocabulary(names: map<nat, Term>, spanPairs: seq<(Term, nat)>) returns (terms: seq<Term>)
    ensures forall t :: t in terms <==> t in names.Values || Met(spanPairs, t)
  {
    terms := [];
    var left := names.Keys;
    while left != {}
      invariant left <= names.Keys
      invariant forall t :: t in terms <==> Named(names, names.Keys - left, t)
      decreases left
    {
      var s :| s in left;
      NamedStep(names, names.Keys - left, s);
      assert names.Keys - (left - {s}) == names.Keys - left + {s};
      terms := terms + [names[s]];
      left := left - {s};
    }
    assert names.Keys - left == names.Keys;
    AllNamed(names);
    for k := 0 to |spanPairs|
      invariant forall t :: t in terms <==> t in names.Values || Met(spanPairs[..k], t)
    {
      MetSnoc(spanPairs, k);
      terms := terms + [spanPairs[k].0];
    }
    assert spanPairs[..|spanPairs|] == spanPairs;
  }

  ghost predicate Named(names: map<nat, Term>, slots: set<nat>, t: Term) {
    exists s :: s in slots && s in names && names[s] == t
  }

  lemma NamedStep(names: map<nat, Term>, slots: set<nat>, s: nat)
    requires s in names
    ensures forall t :: Named(names, slots + {s}, t) <==> Named(names, slots, t) || t == names[s]
  {
    forall t ensures Named(names, slots + {s}, t) <==> Named(names, slots, t) || t == names[s] {
      if t == names[s] {
        assert s in slots + {s};
      }
      if Named(names, slots, t) {
        var q :| q in slots && q in names && names[q] == t;
        assert q in slots + {s};
      }
    }
  }

  lemma AllNamed(names: map<nat, Term>)
    ensures forall t :: Named(names, names.Keys, t) <==> t in names.Values
  {
  }

  lemma MetSnoc(pairs: seq<(Term, nat)>, k: nat)
    requires k < |pairs|
    ensures forall t :: Met(pairs[..k + 1], t) <==> Met(pairs[..k], t) || t == pairs[k].0
  {
    forall t ensures Met(pairs[..k + 1], t) <==> Met(pairs[..k], t) || t == pairs[k].0 {
      assert pairs[..k + 1][k] == pairs[k];
      assert forall j :: 0 <= j < k ==> pairs[..k + 1][j] == pairs[..k][j];
    }
  }

  // ----- keys -----------------------------------------------------------------------------------------

  method SlotOrds(names: map<nat, Term>, ordOf: map<Term, nat>, ghost dict: seq<Term>) returns (slotOrd: seq<nat>)
    requires forall s :: s in names ==> s < TABLE_CAP && names[s] in ordOf && ordOf[names[s]] == OrdOf(dict, names[s])
    ensures |slotOrd| == TABLE_CAP && forall s :: s in names ==> slotOrd[s] == OrdOf(dict, names[s])
  {
    hide OrdOf;
    slotOrd := seq(TABLE_CAP, s => TWO_32 - 1);
    var left := names.Keys;
    while left != {}
      invariant |slotOrd| == TABLE_CAP && left <= names.Keys
      invariant forall s :: s in names && s !in left ==> slotOrd[s] == OrdOf(dict, names[s])
      decreases left
    {
      var s :| s in left;
      slotOrd := slotOrd[s := ordOf[names[s]]];
      left := left - {s};
    }
  }

  // Slots to ords, in contiguous parts.
  method RemapPairs(pairs: seq<nat>, slotOrd: seq<nat>, threads: nat, ghost keys: seq<nat>) returns (chunks: seq<seq<nat>>)
    requires threads > 0 && |keys| == |pairs|
    requires forall p :: 0 <= p < |pairs| ==> KeyOrd(pairs[p]) < |slotOrd| && keys[p] == Key(slotOrd[KeyOrd(pairs[p])], KeyDoc(pairs[p]))
    ensures Flatten(chunks) == keys
  {
    hide Key, KeyOrd, KeyDoc, Flatten;
    var n := |pairs|;
    var part := if n == 0 then 1 else (n + threads - 1) / threads;
    if n > 0 {
      DivMonotone(threads, n + threads - 1, threads);
    }
    chunks := [];
    FlattensNothing();
    var start := 0;
    while start < n
      invariant start <= n && Flatten(chunks) == keys[..start]
    {
      var end := if start + part < n then start + part else n;
      var chunk: seq<nat> := [];
      for p := start to end
        invariant chunk == keys[start..p]
      {
        chunk := chunk + [Key(slotOrd[KeyOrd(pairs[p])], KeyDoc(pairs[p]))];
      }
      FlattenMore(chunks, chunk);
      assert keys[..end] == keys[..start] + keys[start..end];
      chunks := chunks + [chunk];
      start := end;
    }
    assert keys[..n] == keys;
  }

  lemma FlattensNothing()
    ensures Flatten<nat>([]) == []
  {
  }

  method SpanKeys(pairs: seq<(Term, nat)>, ordOf: map<Term, nat>, ghost dict: seq<Term>) returns (keys: seq<nat>)
    requires forall k :: 0 <= k < |pairs| ==> pairs[k].0 in ordOf && ordOf[pairs[k].0] == OrdOf(dict, pairs[k].0)
    ensures keys == KeysOf(pairs, dict)
  {
    hide Key, OrdOf;
    keys := [];
    for k := 0 to |pairs|
      invariant |keys| == k && forall j :: 0 <= j < k ==> keys[j] == KeysOf(pairs, dict)[j]
    {
      keys := keys + [Key(ordOf[pairs[k].0], pairs[k].1)];
    }
  }

  // ----- documents -----------------------------------------------------------------------------------

  function Newlines(text: seq<Scalar>): nat {
    if text == [] then 0 else (if text[0] == NEWLINE then 1 else 0) + Newlines(text[1..])
  }

  lemma {:induction false} NewlinesAfter(text: seq<Scalar>)
    ensures var k := FirstNewline(text);
            Newlines(text) == if k == |text| then 0 else 1 + Newlines(text[k + 1..])
  {
    if text != [] && text[0] != NEWLINE {
      NewlinesAfter(text[1..]);
      var k := FirstNewline(text[1..]);
      if k < |text[1..]| {
        assert text[1..][k + 1..] == text[k + 2..];
      }
    }
  }

  lemma {:induction false} LineCount(text: seq<Scalar>)
    ensures |Lines(text)| + (if text != [] && text[|text| - 1] == NEWLINE then 1 else 0) == Newlines(text) + 1
    decreases |text|
  {
    hide FirstNewline, Newlines;
    NewlinesAfter(text);
    var k := FirstNewline(text);
    if k + 1 < |text| {
      LineCount(text[k + 1..]);
      assert text[k + 1..][|text[k + 1..]| - 1] == text[|text| - 1];
    } else {
      NoNewlines();
      assert k + 1 == |text| ==> text[k + 1..] == [];
      assert k == |text| > 0 ==> text[|text| - 1] != NEWLINE;
    }
  }

  lemma NoNewlines()
    ensures Newlines([]) == 0
  {
  }

  lemma {:induction false} DocsOfBytes(text: seq<byte>, i: nat, chars: seq<Scalar>)
    requires i <= |text| && text[i..] == Encode(chars)
    ensures DocAt(text, |text|) == DocAt(text, i) + Newlines(chars)
    decreases |chars|
  {
    hide DocAt, EncodeChar;
    if chars != [] {
      var n := |EncodeChar(chars[0])|;
      assert text[i + n..] == text[i..][n..];
      CharDocs(text, i, chars);
      DocsOfBytes(text, i + n, chars[1..]);
    }
  }

  lemma CharDocs(text: seq<byte>, i: nat, chars: seq<Scalar>)
    requires i <= |text| && chars != [] && text[i..] == Encode(chars)
    ensures DocAt(text, i + |EncodeChar(chars[0])|) == DocAt(text, i) + if chars[0] == NEWLINE then 1 else 0
  {
    var n := |EncodeChar(chars[0])|;
    assert forall k :: 0 <= k < n ==> text[i + k] == text[i..][k] == EncodeChar(chars[0])[k];
    assert DocAt(text, i + 1) == DocAt(text, i) + if text[i] == NEWLINE then 1 else 0;
    if n >= 2 {
      assert DocAt(text, i + 2) == DocAt(text, i + 1);
    }
    if n >= 3 {
      assert DocAt(text, i + 3) == DocAt(text, i + 2);
    }
    if n >= 4 {
      assert DocAt(text, i + 4) == DocAt(text, i + 3);
    }
  }

  // The last byte is a newline exactly when the last character is.
  lemma {:induction false} LastByte(chars: seq<Scalar>)
    requires chars != []
    ensures Encode(chars) != []
    ensures Encode(chars)[|Encode(chars)| - 1] == NEWLINE <==> chars[|chars| - 1] == NEWLINE
    decreases |chars|
  {
    if |chars| > 1 {
      LastByte(chars[1..]);
      assert chars[|chars| - 1] == chars[1..][|chars[1..]| - 1];
    } else {
      EncodeOne(chars[0]);
      assert chars == [chars[0]];
    }
  }

  lemma DocsAreLines(corpus: seq<Scalar>)
    requires corpus != []
    ensures |Lines(corpus)| == NumDocs(Encode(corpus))
  {
    hide Lines, Encode, Newlines;
    var text := Encode(corpus);
    LineCount(corpus);
    LastByte(corpus);
    assert text[0..] == text;
    DocsOfBytes(text, 0, corpus);
    assert DocAt(text, |text|) == DocAt(text, |text| - 1) + if text[|text| - 1] == NEWLINE then 1 else 0;
  }

  function Members(s: seq<nat>): set<nat> { set x | x in s }

  lemma MembersSnoc(s: seq<nat>)
    requires s != []
    ensures Members(s) == Members(s[..|s| - 1]) + {s[|s| - 1]}
  {
    assert s == s[..|s| - 1] + [s[|s| - 1]];
  }

  lemma {:induction false} SetOfLog(s: seq<nat>)
    requires NoDuplicates(s)
    ensures |Members(s)| == |s|
  {
    if s != [] {
      var n := |s| - 1;
      SetOfLog(s[..n]);
      MembersSnoc(s);
      assert s[n] !in Members(s[..n]);
    }
  }

  lemma SpanCountIs(job: Job, m: Machine)
    requires Inv(job, m) && Finished(job, m)
    ensures m.spanCount == |DirtyRuns(job.text)|
  {
    hide Clean, Dirty, Finished, PcsOk, PairsOk, SpansOk, CountsOk, TableOk, StageOf;
    FinalLogs(job, m);
    SetOfLog(m.spanClaims);
    forall x: nat ensures x in Members(m.spanClaims) <==> x in DirtyRuns(job.text) {
      KindBelow(job.text, x);
    }
    assert Members(m.spanClaims) == DirtyRuns(job.text);
  }

  // ----- the build ------------------------------------------------------------------------------------

  // The final state of some run.
  ghost predicate Ends(job: Job, m: Machine) {
    Sound(job) && Inv(job, m) && Finished(job, m)
  }

  lemma VocabularyIs(job: Job, m: Machine, names: map<nat, Term>, docs: seq<seq<Term>>, u: Unicode, terms: seq<Term>)
    requires Ends(job, m) && Names(job, m.table, names) && HoldStored(job.text, docs, u)
    requires forall t :: t in terms <==> t in names.Values || Met(LogPairs(job.text, m.spanClaims, u), t)
    ensures SortUnique(terms) == DictOf(docs)
  {
    hide Inv, Finished, Names, LogPairs, TokenPairs, AllStoredPairs, SortUnique, Met, Flatten, Sound, NumDocs;
    var a, b := LogPairs(job.text, m.claims, u), LogPairs(job.text, m.spanClaims, u);
    FinalPairs(job, m, u);
    forall t ensures t in terms <==> t in Flatten(docs) {
      SlotsAreClaims(job, m, names, u, t);
      MetBoth(a, b, t);
      MetDocs(docs, t);
      if Met(a + b, t) {
        MetSame(a + b, TokenPairs(docs, 0), t);
      }
      if Met(TokenPairs(docs, 0), t) {
        MetSame(TokenPairs(docs, 0), a + b, t);
      }
    }
    SameDict(terms, Flatten(docs));
  }

  lemma MetBoth(a: seq<(Term, nat)>, b: seq<(Term, nat)>, t: Term)
    ensures Met(a + b, t) <==> Met(a, t) || Met(b, t)
  {
    if Met(a, t) {
      var j :| 0 <= j < |a| && a[j].0 == t;
      assert (a + b)[j] == a[j];
    }
    if Met(b, t) {
      var j :| 0 <= j < |b| && b[j].0 == t;
      assert (a + b)[|a| + j] == b[j];
    }
    if Met(a + b, t) {
      var j :| 0 <= j < |a + b| && (a + b)[j].0 == t;
      assert j < |a| ==> a[j] == (a + b)[j];
      assert j >= |a| ==> b[j - |a|] == (a + b)[j];
    }
  }

  // The pairs are over the dictionary, with documents in range.
  lemma PairsInDict(job: Job, m: Machine, docs: seq<seq<Term>>, u: Unicode)
    requires Ends(job, m) && HoldStored(job.text, docs, u)
    ensures |docs| <= TWO_32
    ensures AllIn(LogPairs(job.text, m.claims, u) + LogPairs(job.text, m.spanClaims, u), DictOf(docs))
    ensures AllIn(TokenPairs(docs, 0), DictOf(docs))
  {
    hide Inv, Finished, LogPairs, TokenPairs, AllStoredPairs, DictOf, Met, Flatten, NumDocs;
    var both := LogPairs(job.text, m.claims, u) + LogPairs(job.text, m.spanClaims, u);
    FinalPairs(job, m, u);
    PairsIn(docs);
    forall k | 0 <= k < |both| ensures both[k].0 in DictOf(docs) && both[k].1 < TWO_32 {
      assert both[k] in multiset(both);
      assert both[k] in TokenPairs(docs, 0);
    }
  }

  // A claimed pair becomes its key.
  lemma ClaimKey(job: Job, m: Machine, names: map<nat, Term>, slotOrd: seq<nat>, dict: seq<Term>, u: Unicode, p: nat)
    requires Ends(job, m) && Names(job, m.table, names) && p < |m.claims|
    requires |slotOrd| == TABLE_CAP && forall s :: s in names ==> slotOrd[s] == OrdOf(dict, names[s])
    ensures |LogPairs(job.text, m.claims, u)| == |m.claims| && p < |m.pairs| && KeyOrd(m.pairs[p]) < |slotOrd|
    ensures Key(slotOrd[KeyOrd(m.pairs[p])], KeyDoc(m.pairs[p])) == KeysOf(LogPairs(job.text, m.claims, u), dict)[p]
  {
    hide Clean, TermAt, Loc, LocStart, DocAt, Finished, Shape, PcsOk, Logs, SpansOk, CountsOk, LogPairs, KeyOrd, KeyDoc,
         Key, OrdOf, SlotOk;
    FinalLogs(job, m);
    CleanPairs(job.text, m.claims, u, 0);
    FinalPair(job, m, p);
  }

  lemma KeysKept(job: Job, m: Machine, docs: seq<seq<Term>>, u: Unicode)
    requires Ends(job, m) && HoldStored(job.text, docs, u)
    ensures var dict := DictOf(docs);
            var a, b := LogPairs(job.text, m.claims, u), LogPairs(job.text, m.spanClaims, u);
            && multiset(KeysOf(a, dict) + KeysOf(b, dict)) == multiset(KeysOf(TokenPairs(docs, 0), dict))
            && forall k :: k in KeysOf(a, dict) + KeysOf(b, dict) ==> KeyOrd(k) < |dict|
  {
    hide Inv, Finished, LogPairs, TokenPairs, AllStoredPairs, DictOf, AllIn, KeysOf, KeyOrd, Sound, NumDocs;
    var dict := DictOf(docs);
    var a, b := LogPairs(job.text, m.claims, u), LogPairs(job.text, m.spanClaims, u);
    FinalPairs(job, m, u);
    PairsInDict(job, m, docs, u);
    DictIs(docs);
    KeysOfAppend(a, b, dict);
    KeysPermuted(a + b, TokenPairs(docs, 0), dict);
    forall k | k in KeysOf(a + b, dict) ensures KeyOrd(k) < |dict| {
      KeysBounded(a + b, dict, k);
    }
  }

  lemma SpansReady(job: Job, m: Machine)
    requires Ends(job, m) && m.spanCount <= job.SpanCap()
    ensures |m.spanClaims| == m.spanCount <= |m.spans| && |m.docTokens| == NumDocs(job.text)
    ensures forall j :: 0 <= j < m.spanCount ==> Dirty(job.text, m.spanClaims[j]) && m.spans[j] == Loc(job.text, m.spanClaims[j])
  {
    hide Finished, PcsOk, Logs, PairsOk, SpansOk, CountsOk, TableOk, Dirty, Loc;
    forall j | 0 <= j < m.spanCount
      ensures Dirty(job.text, m.spanClaims[j]) && m.spans[j] == Loc(job.text, m.spanClaims[j])
    {
      FinalSpan(job, m, j);
    }
  }

  lemma TableReady(job: Job, m: Machine)
    requires Ends(job, m)
    ensures TableOk(job, m.table) && |m.table| == TABLE_CAP && m.pairCount == |m.claims|
  {
    hide Finished, PcsOk, Logs, PairsOk, SpansOk, CountsOk;
  }

  lemma NormsAre(job: Job, m: Machine, docs: seq<seq<Term>>, u: Unicode, tokens: seq<nat>, norms: seq<byte>)
    requires Ends(job, m) && HoldStored(job.text, docs, u)
    requires Added(m.docTokens, tokens, LogPairs(job.text, m.spanClaims, u)) && |norms| == |tokens|
    requires forall d :: 0 <= d < |tokens| ==> norms[d] == NormOf(tokens[d])
    ensures norms == Norms(docs)
  {
    hide Finished, PcsOk, Logs, PairsOk, SpansOk, CountsOk, TableOk, LogPairs, CountDoc, NormOf, NumDocs, AllStoredPairs, TokenPairs;
    forall d | 0 <= d < |docs| ensures norms[d] == NormOf(|docs[d]|) {
      FinalCount(job, m, docs, u, d);
    }
  }

  method HostNorms(tokens: seq<nat>) returns (norms: seq<byte>)
    ensures |norms| == |tokens| && forall d :: 0 <= d < |tokens| ==> norms[d] == NormOf(tokens[d])
  {
    norms := [];
    for d := 0 to |tokens|
      invariant |norms| == d && forall k :: 0 <= k < d ==> norms[k] == NormOf(tokens[k])
    {
      norms := norms + [NormOf(tokens[d])];
    }
  }

  // Ords and rows from the downloaded buffers.
  method BuildRows(ghost job: Job, ghost m: Machine, ghost docs: seq<seq<Term>>, dev: Device, names: map<nat, Term>,
                   spanPairs: seq<(Term, nat)>, dict: seq<Term>, threads: nat, u: Unicode)
    returns (p: Postings)
    requires Ends(job, m) && dev == Download(m) && Names(job, m.table, names) && threads > 0
    requires HoldStored(job.text, docs, u)
    requires spanPairs == LogPairs(job.text, m.spanClaims, u) && dict == DictOf(docs)
    requires forall s :: s in names ==> names[s] in dict
    ensures IsCsr(p, multiset(KeysOf(TokenPairs(docs, 0), dict)), |dict|)
  {
    hide Ends, Names, LogPairs, TokenPairs, HoldStored, DictOf, AllIn, KeysOf, KeyOrd, KeyDoc, Key,
         OrdOf, IsCsr, Flatten, StrictlySorted;
    DictIs(docs);
    var ordOf := OrdMap(dict);
    NamesBounded(job, m, names);
    var slotOrd := SlotOrds(names, ordOf, dict);
    ghost var a := LogPairs(job.text, m.claims, u);
    ClaimsReady(job, m, u);
    var pairs := dev.pairs[..dev.pairCount];
    forall k | 0 <= k < |pairs|
      ensures KeyOrd(pairs[k]) < |slotOrd| && KeysOf(a, dict)[k] == Key(slotOrd[KeyOrd(pairs[k])], KeyDoc(pairs[k]))
    {
      ClaimKey(job, m, names, slotOrd, dict, u, k);
    }
    var chunks := RemapPairs(pairs, slotOrd, threads, KeysOf(a, dict));
    SpansInDict(job, m, docs, u, dict, spanPairs);
    var spanKeys := SpanKeys(spanPairs, ordOf, dict);
    FlattenMore(chunks, spanKeys);
    KeysKept(job, m, docs, u);
    p := KeysToCsr(chunks + [spanKeys], |dict|, threads);
  }

  lemma NamesBounded(job: Job, m: Machine, names: map<nat, Term>)
    requires Ends(job, m) && Names(job, m.table, names)
    ensures forall s :: s in names ==> s < TABLE_CAP
  {
    hide Inv, Finished;
    TableReady(job, m);
  }

  lemma ClaimsReady(job: Job, m: Machine, u: Unicode)
    requires Ends(job, m)
    ensures m.pairCount == |m.claims| == |LogPairs(job.text, m.claims, u)| && m.pairCount <= |m.pairs|
  {
    hide Finished, PcsOk, PairsOk, SpansOk, CountsOk, TableOk, LogPairs, Clean;
    FinalLogs(job, m);
    CleanPairs(job.text, m.claims, u, 0);
    ClaimsFit(job, m);
  }

  lemma SpansInDict(job: Job, m: Machine, docs: seq<seq<Term>>, u: Unicode, dict: seq<Term>, spanPairs: seq<(Term, nat)>)
    requires Ends(job, m) && HoldStored(job.text, docs, u)
    requires spanPairs == LogPairs(job.text, m.spanClaims, u) && dict == DictOf(docs)
    ensures forall k :: 0 <= k < |spanPairs| ==> spanPairs[k].0 in dict
  {
    hide Ends, LogPairs, TokenPairs, HoldStored, DictOf;
    PairsInDict(job, m, docs, u);
    var a := LogPairs(job.text, m.claims, u);
    forall k | 0 <= k < |spanPairs| ensures spanPairs[k].0 in dict {
      assert (a + spanPairs)[|a| + k] == spanPairs[k];
    }
  }

  lemma NamesInDict(names: map<nat, Term>, terms: seq<Term>, spanPairs: seq<(Term, nat)>)
    requires forall t :: t in terms <==> t in names.Values || Met(spanPairs, t)
    ensures forall s :: s in names ==> names[s] in SortUnique(terms)
  {
    hide SortUnique, Met;
    SortUniqueIs(terms);
    forall s | s in names ensures names[s] in SortUnique(terms) {
      assert names[s] in names.Values;
    }
  }

  // Every clean term has a slot.
  lemma OccupiedAll(job: Job, m: Machine, slots: seq<nat>)
    requires Ends(job, m) && forall s :: 0 <= s < TABLE_CAP && m.table[s] != 0 ==> s in slots
    requires |m.table| == TABLE_CAP && forall k :: 0 <= k < |slots| ==> slots[k] < TABLE_CAP
    ensures |CleanTerms(job.text)| <= |slots|
  {
    hide Finished, PcsOk, Logs, PairsOk, SpansOk, CountsOk, TableOk, Clean, TermAt, CleanTerms, SlotTerm;
    var owners := seq<Term>(|slots|, k requires 0 <= k < |slots| => SlotTerm(job, m.table[slots[k]]));
    forall t | t in CleanTerms(job.text) ensures t in owners {
      var s := SlotOfTerm(job, m, t);
      var k :| 0 <= k < |slots| && slots[k] == s;
      assert owners[k] == t;
    }
    AmongThese(CleanTerms(job.text), owners);
  }

  lemma SlotOfTerm(job: Job, m: Machine, t: Term) returns (s: nat)
    requires Ends(job, m) && t in CleanTerms(job.text)
    ensures s < |m.table| && m.table[s] != 0 && SlotTerm(job, m.table[s]) == t
  {
    hide Finished, PcsOk, Logs, PairsOk, SpansOk, CountsOk, TableOk, Clean, TermAt, SlotTerm, KeyOrd, KeyDoc;
    var i :| 0 <= i < |job.text| && Clean(job.text, i) && TermAt(job.text, i) == t;
    FinalLogs(job, m);
    assert i in m.claims;
    var p :| 0 <= p < |m.claims| && m.claims[p] == i;
    FinalPair(job, m, p);
    s := KeyOrd(m.pairs[p]);
  }

  lemma {:induction false} AmongThese(terms: set<Term>, s: seq<Term>)
    requires forall t :: t in terms ==> t in s
    ensures |terms| <= |s|
    decreases |s|
  {
    if s == [] {
      assert terms == {};
    } else {
      var n := |s| - 1;
      assert s == s[..n] + [s[n]];
      AmongThese(terms - {s[n]}, s[..n]);
    }
  }

  // Build a field from a corpus of lines. The downloaded buffers are those of any run of the
  // kernel. The build is refused when the span buffer was too small; and where more slots
  // are taken than their own buffer holds, the device writes past it, a panic here. The
  // field is that of the stored documents: of the lines themselves unless a span was cut.
  method Build(corpus: seq<Scalar>, ghost job: Job, ghost run: seq<Machine>, dev: Device, threads: nat, u: Unicode)
    returns (r: Result<InvertedField>)
    requires corpus != [] && job.text == Encode(corpus) && Sound(job) && AgreesOnAscii(u) && threads > 0
    requires run != [] && IsRun(job, run) && Finished(job, run[|run| - 1]) && dev == Download(run[|run| - 1])
    ensures r == Err(Invalid) <==> |DirtyRuns(job.text)| > |job.text| / 8 + 16
    ensures r == Err(Panic) <==> |DirtyRuns(job.text)| <= |job.text| / 8 + 16 && |CleanTerms(job.text)| > 0x20_0000
    ensures r.Err? ==> r == Err(Invalid) || r == Err(Panic)
    ensures r.Ok? ==> IsInverted(r.value, StoredDocs(job.text, u))
    ensures r.Ok? && SpansShort(job.text) ==> IsInverted(r.value, TokensOf(Lines(corpus), u))
  {
    hide Inv, Finished, IsRun, Names, LogPairs, TokenPairs, TokensOf, Lines, Encode, AgreesOnAscii, DictOf, KeysOf, IsCsr, HoldStored,
         SpansShort, CleanTerms, DirtyRuns, PushAll, Norms, TableOk, NumDocs, AreStarts, Dirty, Loc, SortUnique, Met, Added,
         Sound, StoredDocs, IsInverted;
    ghost var m := run[|run| - 1];
    RunInv(job, run, |run| - 1);
    var text := Encode(corpus);
    SpanCountIs(job, m);
    if dev.spanCount > |text| / 8 + 16 {
      return Err(Invalid);
    }
    var starts := DocStarts(text);
    TableReady(job, m);
    var slots, locs := CompactTable(dev.table);
    OccupiedFit(job, dev.table, slots);
    OccupiedAll(job, m, slots);
    if |slots| > COMPACT_CAP {
      return Err(Panic);
    }
    var names := SlotTerms(job, text, dev.table, slots, locs);
    SpansReady(job, m);
    ghost var docs := StoredDocs(text, u);
    StoredDocsHold(text, u);
    var spanPairs, tokens := Retokenize(text, starts, dev.spans, dev.spanCount, m.spanClaims, threads, dev.docTokens, u);
    var terms := Vocabulary(names, spanPairs);
    VocabularyIs(job, m, names, docs, u, terms);
    NamesInDict(names, terms, spanPairs);
    var dict := SortUnique(terms);
    var p := BuildRows(job, m, docs, dev, names, spanPairs, dict, threads, u);
    var norms := HostNorms(tokens);
    NormsAre(job, m, docs, u, tokens, norms);
    var layout := DictLayout(dict);
    FieldIs(InvertedField(layout, p, norms), docs);
    LinesStored(corpus, u);
    return Ok(InvertedField(layout, p, norms));
  }

  lemma FieldIs(f: InvertedField, docs: seq<seq<Term>>)
    requires f.terms == PushAll(U64, NO_TERMS, DictOf(docs)) && f.norms == Norms(docs)
    requires IsCsr(f.postings, multiset(KeysOf(TokenPairs(docs, 0), DictOf(docs))), |DictOf(docs)|)
    ensures IsInverted(f, docs)
  {
  }

  lemma LinesStored(corpus: seq<Scalar>, u: Unicode)
    requires AgreesOnAscii(u) && corpus != []
    ensures SpansShort(Encode(corpus)) ==> StoredDocs(Encode(corpus), u) == TokensOf(Lines(corpus), u)
  {
    hide SpansShort, StoredDocs, Encode, Lines, TokensOf, AgreesOnAscii;
    DocsAreLines(corpus);
    if SpansShort(Encode(corpus)) {
      StoredLines(corpus, u);
    }
  }
}
