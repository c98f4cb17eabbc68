// The kernel returns: while no more distinct terms than slots exist, a probe
// always has a free slot or its own ahead, so every step leaves less work, and
// a run can be no longer than the work at the start.
module TextProgress {
  import opened Bits
  import opened Lex
  import opened Machines
  import opened TextKernel
  import opened TextMachine
  import opened TextInvariant

  function CleanTerms(text: seq<byte>): set<Term> {
    set i | 0 <= i < |text| && Clean(text, i) :: TermAt(text, i)
  }

  lemma {:induction false} DistinctWithin(s: seq<Term>, terms: set<Term>)
    requires (forall i, j :: 0 <= i < j < |s| ==> s[i] != s[j]) && forall i :: 0 <= i < |s| ==> s[i] in terms
    ensures |s| <= |terms|
    decreases |s|
  {
    if s != [] {
      var n := |s| - 1;
      DistinctWithin(s[..n], terms - {s[n]});
    }
  }

  // A probe never walks the whole table.
  lemma FreeAhead(job: Job, m: Machine, term: Term, slot: nat)
    requires Sound(job) && Inv(job, m) && |CleanTerms(job.text)| <= TABLE_CAP && term in CleanTerms(job.text)
    requires PathTaken(job, m.table, term, slot) && slot < TABLE_CAP && TakenByOther(job, m.table, slot, term)
    ensures Dist(TABLE_CAP, job.home(term), slot) < TABLE_CAP - 1
  {
    hide Clean, TermAt, Loc, LocStart, CleanTerms, Shape, PcsOk, Logs, PairsOk, SpansOk, CountsOk, PathTaken;
    var home := job.home(term);
    assert home < TABLE_CAP;
    if Dist(TABLE_CAP, home, slot) >= TABLE_CAP - 1 {
      AllTaken(job, m.table, term, slot);
      var owners := seq(TABLE_CAP, q requires 0 <= q < TABLE_CAP => SlotTerm(job, m.table[q]));
      forall i, j | 0 <= i < j < TABLE_CAP ensures owners[i] != owners[j] {
        assert TakenByOther(job, m.table, i, term) && TakenByOther(job, m.table, j, term);
        if owners[i] == owners[j] {
          assert Holds(job, m.table, i, owners[i]) && Holds(job, m.table, j, owners[i]);
          OneSlot(job, m.table, i, j, owners[i]);
        }
      }
      forall q | 0 <= q < TABLE_CAP ensures owners[q] in CleanTerms(job.text) - {term} {
        assert TakenByOther(job, m.table, q, term);
        assert SlotOk(job, m.table, q);
        TermListed(job.text, LocStart(m.table[q]));
      }
      DistinctWithin(owners, CleanTerms(job.text) - {term});
    }
  }

  lemma AllTaken(job: Job, table: seq<nat>, term: Term, slot: nat)
    requires job.home(term) < TABLE_CAP && slot < TABLE_CAP && PathTaken(job, table, term, slot)
    requires TakenByOther(job, table, slot, term) && Dist(TABLE_CAP, job.home(term), slot) >= TABLE_CAP - 1
    ensures forall q :: 0 <= q < TABLE_CAP ==> TakenByOther(job, table, q, term)
  {
    hide TakenByOther;
    forall q | 0 <= q < TABLE_CAP ensures TakenByOther(job, table, q, term) {
      if Dist(TABLE_CAP, job.home(term), q) >= Dist(TABLE_CAP, job.home(term), slot) {
        assert q == slot;
      }
    }
  }

  lemma TermListed(text: seq<byte>, i: nat)
    requires Clean(text, i)
    ensures TermAt(text, i) in CleanTerms(text)
  {
    hide TermAt;
  }

  // ----- work left ---------------------------------------------------------------------

  // Steps left at the run in hand.
  function Rank(job: Job, pc: Pc): int {
    match pc
    case Scan(_) => TABLE_CAP + 7
    case Probe(i, slot) => TABLE_CAP + 5 - Dist(TABLE_CAP, job.home(TermAt(job.text, i)), slot)
    case Claim(_, _) => 4
    case StorePair(_, _, _) => 3
    case CountToken(_) => 2
    case ClaimSpan(_) => 4
    case StoreSpan(_, _) => 3
  }

  function Weight(job: Job, t: nat, pc: Pc): int { (TABLE_CAP + 8) * (SliceEnd(job, t) - pc.i) + Rank(job, pc) }

  function Work(job: Job, pcs: seq<Pc>): int {
    if pcs == [] then 0 else Work(job, pcs[..|pcs| - 1]) + Weight(job, |pcs| - 1, pcs[|pcs| - 1])
  }

  lemma WeightPositive(job: Job, table: seq<nat>, t: nat, pc: Pc)
    requires Sound(job) && PcOk(job, table, t, pc)
    ensures Weight(job, t, pc) >= 0
  {
    hide Clean, Dirty, TermAt, Holds, PathTaken, SliceEnd;
    var home := job.home(if pc.Probe? then TermAt(job.text, pc.i) else []);
    assert home < TABLE_CAP;
  }

  lemma {:induction false} WorkPositive(job: Job, table: seq<nat>, pcs: seq<Pc>)
    requires Sound(job) && forall t :: 0 <= t < |pcs| ==> PcOk(job, table, t, pcs[t])
    ensures Work(job, pcs) >= 0
  {
    hide PcOk, Weight, Sound;
    if pcs != [] {
      WorkPositive(job, table, pcs[..|pcs| - 1]);
      WeightPositive(job, table, |pcs| - 1, pcs[|pcs| - 1]);
    }
  }

  lemma {:induction false} WorkOfOne(job: Job, pcs: seq<Pc>, t: nat, pc: Pc)
    requires t < |pcs|
    ensures Work(job, Put(pcs, t, pc)) == Work(job, pcs) - Weight(job, t, pcs[t]) + Weight(job, t, pc)
    decreases |pcs|
  {
    hide Weight;
    var n := |pcs| - 1;
    if t < n {
      WorkOfOne(job, pcs[..n], t, pc);
      assert Put(pcs, t, pc)[..n] == Put(pcs[..n], t, pc);
    } else {
      assert Put(pcs, t, pc)[..n] == pcs[..n];
    }
  }

  // One step of a thread leaves it less.
  lemma WeightFalls(job: Job, m: Machine, t: nat)
    requires Sound(job) && Inv(job, m) && CanStep(job, m, t) && |CleanTerms(job.text)| <= TABLE_CAP
    ensures t < |Step(job, m, t).pcs| && Weight(job, t, Step(job, m, t).pcs[t]) < Weight(job, t, m.pcs[t])
  {
    hide Clean, Dirty, DocAt, TermAt, Loc, LocStart, PathTaken, Logs, PairsOk, SpansOk, CountsOk, SlotOk, RunEnd, HasWide,
         StartsRun, NextSlot, NumDocs, AfterByte, Holds, CleanTerms, Sound;
    var pc := m.pcs[t];
    assert PcOk(job, m.table, t, pc);
    match pc
    case Scan(i) => ByteRank(job, i);
    case Probe(i, slot) =>
      var term := TermAt(job.text, i);
      HomeBound(job, term);
      if m.table[slot] != 0 && SlotTerm(job, m.table[slot]) != term {
        TermListed(job.text, i);
        FreeAhead(job, m, term, slot);
        PassSlot(job, m.table, term, slot);
        NotHome(job.home(term), slot);
      }
    case _ =>
  }

  lemma HomeBound(job: Job, term: Term)
    requires Sound(job)
    ensures job.home(term) < TABLE_CAP
  {
  }

  lemma NotHome(home: nat, slot: nat)
    requires home < TABLE_CAP && slot < TABLE_CAP && Dist(TABLE_CAP, home, slot) < TABLE_CAP - 1
    ensures NextSlot(slot) != home
  {
  }

  lemma ByteRank(job: Job, i: nat)
    ensures AfterByte(job, i) == Scan(i + 1) || (AfterByte(job, i).i == i && Rank(job, AfterByte(job, i)) < TABLE_CAP + 7)
  {
    hide TermAt, StartsRun, HasWide, RunEnd;
  }

  lemma WorkFalls(job: Job, m: Machine, t: nat)
    requires Sound(job) && Inv(job, m) && CanStep(job, m, t) && |CleanTerms(job.text)| <= TABLE_CAP
    ensures Work(job, Step(job, m, t).pcs) < Work(job, m.pcs)
  {
    hide Step, Inv, Weight, CleanTerms, Sound, Work;
    WeightFalls(job, m, t);
    StepPcs(job, m, t);
    WorkOfOne(job, m.pcs, t, Step(job, m, t).pcs[t]);
  }

  lemma {:induction false} RunWork(job: Job, run: seq<Machine>, k: nat)
    requires Sound(job) && IsRun(job, run) && k < |run| && |CleanTerms(job.text)| <= TABLE_CAP
    ensures k + Work(job, run[k].pcs) <= Work(job, Start(job).pcs) && Work(job, run[k].pcs) >= 0
    decreases k
  {
    hide Step, Inv, Work, Start, CleanTerms, Sound, PcOk;
    RunInv(job, run, k);
    WorkPositiveHere(job, run[k]);
    if k > 0 {
      RunWork(job, run, k - 1);
      RunInv(job, run, k - 1);
      assert Moves(job, run[k - 1], run[k - 1 + 1]);
      var t :| CanStep(job, run[k - 1], t) && run[k] == Step(job, run[k - 1], t);
      WorkFalls(job, run[k - 1], t);
    }
  }

  lemma WorkPositiveHere(job: Job, m: Machine)
    requires Sound(job) && Inv(job, m)
    ensures Work(job, m.pcs) >= 0
  {
    hide Work, PcOk, Logs, PairsOk, SpansOk, CountsOk, TableOk, Shape;
    WorkPositive(job, m.table, m.pcs);
  }

  // Every run ends: its length is bounded, and it can only stop where all threads
  // have returned.
  lemma RunsEnd(job: Job, run: seq<Machine>)
    requires Sound(job) && IsRun(job, run) && |CleanTerms(job.text)| <= 0x40_0000
    ensures |run| <= Work(job, Start(job).pcs) + 1
    ensures !Finished(job, run[|run| - 1]) ==> exists m' :: IsRun(job, run + [m'])
  {
    hide Step, Inv, Work, Start, CleanTerms, Sound;
    RunWork(job, run, |run| - 1);
    var last := run[|run| - 1];
    if !Finished(job, last) {
      var t :| 0 <= t < |last.pcs| && CanStep(job, last, t);
      var m' := Step(job, last, t);
      var longer := run + [m'];
      forall k | 0 <= k < |longer| - 1 ensures Moves(job, longer[k], longer[k + 1]) {
        if k < |run| - 1 {
          assert longer[k] == run[k] && longer[k + 1] == run[k + 1];
        }
      }
      assert IsRun(job, longer);
    }
  }
}
