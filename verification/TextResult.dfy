// What the kernel leaves when all threads have returned: every run of the corpus
// is logged once, so the logged pairs are the corpus' pairs in some order.
module TextResult {
  import opened Bits
  import opened Lex
  import opened Analyzer
  import opened Inverted
  import opened Machines
  import opened TextKernel
  import opened TextMachine
  import opened TextInvariant
  import opened TextRuns

  // ----- sums do not depend on the order ----------------------------------------------

  function SumOf<X>(s: seq<X>, f: X -> nat): nat {
    if s == [] then 0 else SumOf(s[..|s| - 1], f) + f(s[|s| - 1])
  }

  lemma {:induction false} SumAppend<X>(a: seq<X>, b: seq<X>, f: X -> nat)
    ensures SumOf(a + b, f) == SumOf(a, f) + SumOf(b, f)
    decreases |b|
  {
    if b == [] {
      assert a + b == a;
    } else {
      assert (a + b)[..|a + b| - 1] == a + b[..|b| - 1];
      SumAppend(a, b[..|b| - 1], f);
    }
  }

  lemma SumOne<X>(x: X, f: X -> nat)
    ensures SumOf([x], f) == f(x)
  {
    assert [x][..0] == [];
  }

  lemma SumSplit<X>(s: seq<X>, k: nat, f: X -> nat)
    requires k < |s|
    ensures SumOf(s, f) == SumOf(s[..k] + s[k + 1..], f) + f(s[k])
  {
    hide SumOf;
    assert s == s[..k] + ([s[k]] + s[k + 1..]);
    SumAppend(s[..k], [s[k]] + s[k + 1..], f);
    SumAppend([s[k]], s[k + 1..], f);
    SumAppend(s[..k], s[k + 1..], f);
    SumOne(s[k], f);
  }

  lemma WithoutOne<X>(a: seq<X>, b: seq<X>) returns (k: nat)
    requires a != [] && multiset(a) == multiset(b)
    ensures k < |b| && b[k] == a[|a| - 1] && multiset(a[..|a| - 1]) == multiset(b[..k] + b[k + 1..])
  {
    var x := a[|a| - 1];
    assert x in multiset(a);
    assert x in multiset(b);
    k :| 0 <= k < |b| && b[k] == x;
    var init, rest := a[..|a| - 1], b[..k] + b[k + 1..];
    assert a == init + [x];
    assert b == b[..k] + ([x] + b[k + 1..]);
    assert multiset(init) + multiset{x} == multiset(rest) + multiset{x};
    forall y ensures multiset(init)[y] == multiset(rest)[y] {
      assert (multiset(init) + multiset{x})[y] == (multiset(rest) + multiset{x})[y];
    }
  }

  lemma SameSize<X>(a: seq<X>, b: seq<X>)
    requires multiset(a) == multiset(b)
    ensures |a| == |b|
  {
    assert |multiset(a)| == |a| && |multiset(b)| == |b|;
  }

  lemma {:induction false} SumPermuted<X>(a: seq<X>, b: seq<X>, f: X -> nat)
    requires multiset(a) == multiset(b)
    ensures SumOf(a, f) == SumOf(b, f)
    decreases |a|
  {
    SameSize(a, b);
    if a != [] {
      var k := WithoutOne(a, b);
      SumPermuted(a[..|a| - 1], b[..k] + b[k + 1..], f);
      SumSplit(b, k, f);
    }
  }

  // ----- the pairs of a log --------------------------------------------------------------

  function LogPairs(text: seq<byte>, log: seq<nat>, u: Unicode): seq<(Term, nat)> {
    if log == [] then [] else LogPairs(text, log[..|log| - 1], u) + StoredPairs(text, log[|log| - 1], u)
  }

  lemma {:induction false} LogPairsAppend(text: seq<byte>, a: seq<nat>, b: seq<nat>, u: Unicode)
    ensures LogPairs(text, a + b, u) == LogPairs(text, a, u) + LogPairs(text, b, u)
    decreases |b|
  {
    hide StoredPairs;
    if b == [] {
      assert a + b == a;
    } else {
      assert (a + b)[..|a + b| - 1] == a + b[..|b| - 1];
      LogPairsAppend(text, a, b[..|b| - 1], u);
    }
  }

  function CountIn(text: seq<byte>, u: Unicode, p: (Term, nat)): nat -> nat {
    i => multiset(StoredPairs(text, i, u))[p]
  }

  lemma {:induction false} LogCounts(text: seq<byte>, log: seq<nat>, u: Unicode, p: (Term, nat))
    ensures multiset(LogPairs(text, log, u))[p] == SumOf(log, CountIn(text, u, p))
    decreases |log|
  {
    hide StoredPairs;
    if log != [] {
      LogCounts(text, log[..|log| - 1], u, p);
    }
  }

  lemma LogPermuted(text: seq<byte>, a: seq<nat>, b: seq<nat>, u: Unicode)
    requires multiset(a) == multiset(b)
    ensures multiset(LogPairs(text, a, u)) == multiset(LogPairs(text, b, u))
  {
    hide StoredPairs, LogPairs, SumOf, CountIn;
    forall p ensures multiset(LogPairs(text, a, u))[p] == multiset(LogPairs(text, b, u))[p] {
      LogCounts(text, a, u, p);
      LogCounts(text, b, u, p);
      SumPermuted(a, b, CountIn(text, u, p));
    }
  }

  // ----- all runs, in order ------------------------------------------------------------------

  function AllRuns(text: seq<byte>, n: nat): seq<nat> {
    if n == 0 then [] else AllRuns(text, n - 1) + if Clean(text, n - 1) || Dirty(text, n - 1) then [n - 1] else []
  }

  lemma {:induction false} AllRunsAre(text: seq<byte>, n: nat)
    ensures NoDuplicates(AllRuns(text, n))
    ensures forall x: nat :: x in AllRuns(text, n) <==> x < n && (Clean(text, x) || Dirty(text, x))
  {
    hide Clean, Dirty;
    if n > 0 {
      var before := AllRuns(text, n - 1);
      AllRunsAre(text, n - 1);
      forall x: nat ensures x in AllRuns(text, n) <==> x < n && (Clean(text, x) || Dirty(text, x)) {
        assert x in before + [n - 1] <==> x in before || x == n - 1;
      }
    }
  }

  lemma NothingLogged(text: seq<byte>, u: Unicode)
    ensures LogPairs(text, [], u) == []
  {
  }

  lemma FirstRunPairs(text: seq<byte>, i: nat, u: Unicode)
    requires i < |text|
    ensures AllStoredPairs(text, i, u) == StoredPairs(text, i, u) + AllStoredPairs(text, i + 1, u)
  {
  }

  lemma RunAdded(text: seq<byte>, log: seq<nat>, i: nat, u: Unicode)
    ensures LogPairs(text, log + [i], u) == LogPairs(text, log, u) + StoredPairs(text, i, u)
  {
    hide StoredPairs;
    assert (log + [i])[..|log|] == log;
  }

  lemma RunOrNothing(text: seq<byte>, i: nat, u: Unicode)
    ensures !Clean(text, i) && !Dirty(text, i) ==> StoredPairs(text, i, u) == []
  {
  }

  lemma {:induction false} RunsInOrder(text: seq<byte>, n: nat, u: Unicode)
    requires n <= |text|
    ensures AllStoredPairs(text, 0, u) == LogPairs(text, AllRuns(text, n), u) + AllStoredPairs(text, n, u)
  {
    hide Clean, Dirty, StoredPairs, LogPairs, AllStoredPairs;
    if n == 0 {
      NothingLogged(text, u);
    } else {
      RunsInOrder(text, n - 1, u);
      RunOrNothing(text, n - 1, u);
      FirstRunPairs(text, n - 1, u);
      var before := AllRuns(text, n - 1);
      if Clean(text, n - 1) || Dirty(text, n - 1) {
        RunAdded(text, before, n - 1, u);
        Assoc(LogPairs(text, before, u), StoredPairs(text, n - 1, u), AllStoredPairs(text, n, u));
      } else {
        assert AllRuns(text, n) == before;
        assert [] + AllStoredPairs(text, n, u) == AllStoredPairs(text, n, u);
      }
    }
  }

  // ----- the logs at the end ----------------------------------------------------------------

  lemma {:induction false} OnceEach(s: seq<nat>, x: nat)
    requires NoDuplicates(s)
    ensures multiset(s)[x] == if x in s then 1 else 0
  {
    if s != [] {
      var n := |s| - 1;
      OnceEach(s[..n], x);
      assert s == s[..n] + [s[n]];
    }
  }

  lemma SameBag(a: seq<nat>, b: seq<nat>)
    requires NoDuplicates(a) && NoDuplicates(b) && forall x :: x in a <==> x in b
    ensures multiset(a) == multiset(b)
  {
    forall x: nat ensures multiset(a)[x] == multiset(b)[x] {
      OnceEach(a, x);
      OnceEach(b, x);
    }
  }

  lemma AllPassed(job: Job, m: Machine, x: nat)
    requires Inv(job, m) && Finished(job, m) && (Clean(job.text, x) || Dirty(job.text, x))
    ensures x < |job.text| && StageOf(m, x) == 3
  {
    hide Logs, PairsOk, SpansOk, CountsOk, TableOk, RunEnd, HasWide, PathTaken, Holds;
    var t := x / SLICE;
    assert t < |m.pcs|;
    assert PcOk(job, m.table, t, m.pcs[t]);
    assert !CanStep(job, m, t);
  }

  lemma FinalLog(job: Job, m: Machine, log: seq<nat>, dirty: bool, stage: nat)
    requires Inv(job, m) && Finished(job, m) && IsLog(job, m, log, dirty, stage) && stage <= 3
    ensures NoDuplicates(log) && forall x :: x in log <==> Kind(job, dirty, x)
  {
    hide Inv, Finished, StageOf, Clean, Dirty;
    forall x ensures x in log <==> Kind(job, dirty, x) {
      if Kind(job, dirty, x) {
        AllPassed(job, m, x);
      }
    }
  }

  lemma FinalLogs(job: Job, m: Machine)
    requires Inv(job, m) && Finished(job, m)
    ensures forall x :: x in m.claims <==> Clean(job.text, x)
    ensures forall x :: x in m.spanClaims <==> Dirty(job.text, x)
    ensures multiset(m.counted) == multiset(m.claims)
    ensures multiset(m.claims + m.spanClaims) == multiset(AllRuns(job.text, |job.text|))
  {
    hide Finished, StageOf, Clean, Dirty, Shape, PcsOk, PairsOk, SpansOk, CountsOk, TableOk, AllRuns;
    FinalLog(job, m, m.claims, false, 1);
    FinalLog(job, m, m.spanClaims, true, 1);
    FinalLog(job, m, m.counted, false, 3);
    assert forall x :: x in m.claims <==> Kind(job, false, x);
    assert forall x :: x in m.spanClaims <==> Kind(job, true, x);
    assert forall x :: x in m.counted <==> Kind(job, false, x);
    SameBag(m.counted, m.claims);
    BothLogs(job, m);
  }

  lemma BothLogs(job: Job, m: Machine)
    requires NoDuplicates(m.claims) && forall x :: x in m.claims <==> Clean(job.text, x)
    requires NoDuplicates(m.spanClaims) && forall x :: x in m.spanClaims <==> Dirty(job.text, x)
    ensures multiset(m.claims + m.spanClaims) == multiset(AllRuns(job.text, |job.text|))
  {
    hide Clean, Dirty, AllRuns;
    AllRunsAre(job.text, |job.text|);
    var both := m.claims + m.spanClaims;
    forall i, j | 0 <= i < j < |both| ensures both[i] != both[j] {
      NotBoth(job.text, both[i]);
      if i < |m.claims| {
        assert both[i] in m.claims;
      }
      if j >= |m.claims| {
        assert both[j] in m.spanClaims;
      }
    }
    forall x: nat ensures x in both <==> x in AllRuns(job.text, |job.text|) {
      assert x in both <==> x in m.claims || x in m.spanClaims;
      KindBelow(job.text, x);
    }
    SameBag(both, AllRuns(job.text, |job.text|));
  }

  lemma KindBelow(text: seq<byte>, x: nat)
    ensures Clean(text, x) || Dirty(text, x) ==> x < |text|
  {
  }

  // The pairs of the claimed runs, in any order, are those of all runs.
  lemma FinalPairs(job: Job, m: Machine, u: Unicode)
    requires Inv(job, m) && Finished(job, m)
    ensures multiset(LogPairs(job.text, m.claims, u) + LogPairs(job.text, m.spanClaims, u)) ==
            multiset(AllStoredPairs(job.text, 0, u))
  {
    hide Inv, Finished, LogPairs, AllRuns, AllStoredPairs;
    FinalLogs(job, m);
    LogPairsAppend(job.text, m.claims, m.spanClaims, u);
    LogPermuted(job.text, m.claims + m.spanClaims, AllRuns(job.text, |job.text|), u);
    RunsInOrder(job.text, |job.text|, u);
    NothingStored(job.text, u);
    assert LogPairs(job.text, AllRuns(job.text, |job.text|), u) + [] == LogPairs(job.text, AllRuns(job.text, |job.text|), u);
  }

  lemma NothingStored(text: seq<byte>, u: Unicode)
    ensures AllStoredPairs(text, |text|, u) == []
  {
  }

  // ----- tokens per document --------------------------------------------------------------------

  function InDoc(d: nat): ((Term, nat)) -> nat {
    (p: (Term, nat)) => if p.1 == d then 1 else 0
  }

  function CountDoc(pairs: seq<(Term, nat)>, d: nat): nat { SumOf(pairs, InDoc(d)) }

  lemma {:induction false} DocPairsCount(tokens: seq<Term>, doc: nat, d: nat)
    ensures CountDoc(DocPairs(tokens, doc), d) == if d == doc then |tokens| else 0
    decreases |tokens|
  {
    if tokens != [] {
      var n := |tokens| - 1;
      assert DocPairs(tokens, doc)[..n] == DocPairs(tokens[..n], doc);
      DocPairsCount(tokens[..n], doc, d);
    }
  }

  lemma {:induction false} TokenPairsCount(docs: seq<seq<Term>>, base: nat, d: nat)
    ensures CountDoc(TokenPairs(docs, base), d) == if base <= d < base + |docs| then |docs[d - base]| else 0
    decreases |docs|
  {
    hide DocPairs, InDoc;
    if docs != [] {
      SumAppend(DocPairs(docs[0], base), TokenPairs(docs[1..], base + 1), InDoc(d));
      DocPairsCount(docs[0], base, d);
      TokenPairsCount(docs[1..], base + 1, d);
    }
  }

  function AtDoc(text: seq<byte>, d: nat): nat -> nat {
    i => if DocAt(text, i) == d then 1 else 0
  }

  lemma {:induction false} OccurrencesAre(text: seq<byte>, log: seq<nat>, d: nat)
    ensures Occurrences(text, log, d) == SumOf(log, AtDoc(text, d))
  {
    if log != [] {
      OccurrencesAre(text, log[..|log| - 1], d);
    }
  }

  // Clean runs contribute a pair each.
  lemma {:induction false} CleanPairs(text: seq<byte>, log: seq<nat>, u: Unicode, d: nat)
    requires forall x :: x in log ==> Clean(text, x)
    ensures |LogPairs(text, log, u)| == |log|
    ensures forall k :: 0 <= k < |log| ==> LogPairs(text, log, u)[k] == (TermAt(text, log[k]), DocAt(text, log[k]))
    ensures CountDoc(LogPairs(text, log, u), d) == SumOf(log, AtDoc(text, d))
    decreases |log|
  {
    hide Clean, TermAt, DocAt, StoredPairs, LogPairs, CountDoc, SumOf, AtDoc;
    if log == [] {
      NoPairs(text, log, u, d);
    } else {
      var n := |log| - 1;
      assert forall x :: x in log[..n] ==> x in log;
      CleanPairs(text, log[..n], u, d);
      assert log[n] in log;
      CleanPair(text, log[n], u);
      OnePairMore(text, log, u, d, (TermAt(text, log[n]), DocAt(text, log[n])));
    }
  }

  lemma NoPairs(text: seq<byte>, log: seq<nat>, u: Unicode, d: nat)
    requires log == []
    ensures LogPairs(text, log, u) == [] && CountDoc([], d) == 0 && SumOf(log, AtDoc(text, d)) == 0
  {
  }

  lemma OnePairMore(text: seq<byte>, log: seq<nat>, u: Unicode, d: nat, p: (Term, nat))
    requires log != [] && StoredPairs(text, log[|log| - 1], u) == [p] && p.1 == DocAt(text, log[|log| - 1])
    ensures var init := log[..|log| - 1];
            && LogPairs(text, log, u) == LogPairs(text, init, u) + [p]
            && CountDoc(LogPairs(text, log, u), d) == CountDoc(LogPairs(text, init, u), d) + (if p.1 == d then 1 else 0)
            && SumOf(log, AtDoc(text, d)) == SumOf(init, AtDoc(text, d)) + (if p.1 == d then 1 else 0)
  {
    hide StoredPairs, DocAt;
    SumAppend(LogPairs(text, log[..|log| - 1], u), [p], InDoc(d));
    SumOne(p, InDoc(d));
  }

  lemma CleanPair(text: seq<byte>, i: nat, u: Unicode)
    requires Clean(text, i)
    ensures StoredPairs(text, i, u) == [(TermAt(text, i), DocAt(text, i))]
  {
  }

  lemma CountPermuted(a: seq<(Term, nat)>, b: seq<(Term, nat)>, d: nat)
    requires multiset(a) == multiset(b)
    ensures CountDoc(a, d) == CountDoc(b, d)
  {
    SumPermuted(a, b, InDoc(d));
  }

  // Kernel counts and span counts add up to the document's tokens.
  lemma FinalCount(job: Job, m: Machine, docs: seq<seq<Term>>, u: Unicode, d: nat)
    requires Inv(job, m) && Finished(job, m) && HoldStored(job.text, docs, u)
    requires d < |docs| && d < |m.docTokens|
    ensures m.docTokens[d] + CountDoc(LogPairs(job.text, m.spanClaims, u), d) == |docs[d]|
  {
    hide Finished, LogPairs, AllRuns, AllStoredPairs, TokenPairs, Clean, Dirty, DocAt, NumDocs,
         Logs, PairsOk, SpansOk, TableOk, PcsOk, InDoc, AtDoc, Occurrences, TermAt;
    FinalLogs(job, m);
    FinalPairs(job, m, u);
    var a, b := LogPairs(job.text, m.claims, u), LogPairs(job.text, m.spanClaims, u);
    OccurrencesAre(job.text, m.counted, d);
    SumPermuted(m.counted, m.claims, AtDoc(job.text, d));
    CleanPairs(job.text, m.claims, u, d);
    SumAppend(a, b, InDoc(d));
    CountPermuted(a + b, TokenPairs(docs, 0), d);
    TokenPairsCount(docs, 0, d);
  }
}
