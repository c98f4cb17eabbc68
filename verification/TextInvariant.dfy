// What every state of every run keeps: the table is exact, each thread holds
// what it has won so far, and the logs and buffers agree.
module TextInvariant {
  import opened Bits
  import opened Lex
  import opened Csr
  import opened Machines
  import opened TextKernel
  import opened TextMachine

  // ----- where a run stands ------------------------------------------------------------

  // 0: not counted in; 1: index claimed; 2: stored; 3: done.
  function Stage(pc: Pc, i: nat): nat {
    if i < pc.i then 3
    else if pc.i < i then 0
    else match pc
         case StorePair(_, _, _) => 1
         case StoreSpan(_, _) => 1
         case CountToken(_) => 2
         case _ => 0
  }

  function StageOf(m: Machine, i: nat): nat {
    if i / SLICE < |m.pcs| then Stage(m.pcs[i / SLICE], i) else 0
  }

  // The move of thread t leaves every other run where it was.
  ghost predicate Advances(pc: Pc, pc': Pc) {
    pc'.i == pc.i || pc' == Scan(pc.i + 1)
  }

  lemma StageKept(m: Machine, t: nat, pc': Pc, x: nat)
    requires t < |m.pcs| && Advances(m.pcs[t], pc') && x != m.pcs[t].i
    ensures StageOf(At(m, t, pc'), x) == StageOf(m, x)
    ensures StageOf(m, x) in {1, 2} ==> At(m, t, pc').pcs[x / SLICE] == m.pcs[x / SLICE]
  {
  }

  // ----- the invariant -------------------------------------------------------------------

  ghost predicate Shape(job: Job, m: Machine) {
    && |m.pcs| == job.Threads() && |m.pairs| == job.PairCap() && |m.spans| == job.SpanCap()
    && |m.docTokens| == NumDocs(job.text)
    && m.pairCount == |m.claims| && m.spanCount == |m.spanClaims|
  }

  ghost predicate PcOk(job: Job, table: seq<nat>, t: nat, pc: Pc) {
    && SLICE * t <= pc.i <= SliceEnd(job, t)
    && (pc.Scan? || pc.i < SliceEnd(job, t))
    && match pc
       case Scan(_) => true
       case Probe(i, slot) => Clean(job.text, i) && slot < TABLE_CAP && PathTaken(job, table, TermAt(job.text, i), slot)
       case Claim(i, winner) => Clean(job.text, i) && Holds(job, table, winner, TermAt(job.text, i))
       case StorePair(i, winner, _) => Clean(job.text, i) && Holds(job, table, winner, TermAt(job.text, i))
       case CountToken(i) => Clean(job.text, i)
       case ClaimSpan(i) => Dirty(job.text, i)
       case StoreSpan(i, _) => Dirty(job.text, i)
  }

  ghost predicate PcsOk(job: Job, m: Machine) {
    forall t :: 0 <= t < |m.pcs| ==> PcOk(job, m.table, t, m.pcs[t])
  }

  predicate Kind(job: Job, dirty: bool, i: nat) { if dirty then Dirty(job.text, i) else Clean(job.text, i) }

  // The log lists, once each, the runs of its kind that reached `stage`.
  ghost predicate IsLog(job: Job, m: Machine, log: seq<nat>, dirty: bool, stage: nat) {
    NoDuplicates(log) && forall x :: x in log <==> Kind(job, dirty, x) && StageOf(m, x) >= stage
  }

  ghost predicate Logs(job: Job, m: Machine) {
    IsLog(job, m, m.claims, false, 1) && IsLog(job, m, m.spanClaims, true, 1) && IsLog(job, m, m.counted, false, 3)
  }

  // Index p is still being written by its claimant, or holds its slot and document.
  ghost predicate PairAt(job: Job, m: Machine, p: nat)
    requires p < |m.claims|
  {
    var i := m.claims[p];
    if StageOf(m, i) == 1 then m.pcs[i / SLICE].StorePair? && m.pcs[i / SLICE].p == p
    else p < |m.pairs| && IsPair(job, m.table, m.pairs[p], i)
  }

  ghost predicate IsPair(job: Job, table: seq<nat>, pair: nat, i: nat) {
    Holds(job, table, KeyOrd(pair), TermAt(job.text, i)) && KeyDoc(pair) == DocAt(job.text, i)
  }

  ghost predicate PairsOk(job: Job, m: Machine) {
    forall p :: 0 <= p < |m.claims| ==> PairAt(job, m, p)
  }

  ghost predicate SpanAt(job: Job, m: Machine, d: nat)
    requires d < |m.spanClaims|
  {
    var i := m.spanClaims[d];
    if StageOf(m, i) == 1 then m.pcs[i / SLICE].StoreSpan? && m.pcs[i / SLICE].d == d && d < job.SpanCap()
    else d < job.SpanCap() ==> d < |m.spans| && m.spans[d] == Loc(job.text, i)
  }

  ghost predicate SpansOk(job: Job, m: Machine) {
    forall d :: 0 <= d < |m.spanClaims| ==> SpanAt(job, m, d)
  }

  // The entries of a log that lie in document d.
  function Occurrences(text: seq<byte>, log: seq<nat>, d: nat): nat {
    if log == [] then 0
    else Occurrences(text, log[..|log| - 1], d) + if DocAt(text, log[|log| - 1]) == d then 1 else 0
  }

  ghost predicate CountsOk(job: Job, m: Machine) {
    forall d :: 0 <= d < |m.docTokens| ==> m.docTokens[d] == Occurrences(job.text, m.counted, d)
  }

  ghost predicate Inv(job: Job, m: Machine) {
    && Shape(job, m) && TableOk(job, m.table) && PcsOk(job, m) && Logs(job, m)
    && PairsOk(job, m) && SpansOk(job, m) && CountsOk(job, m)
  }

  // ----- the start -------------------------------------------------------------------------

  lemma StartLogs(job: Job)
    ensures Logs(job, Start(job))
  {
    hide Clean, Dirty, DocAt;
    var m := Start(job);
    forall x: nat ensures StageOf(m, x) == 0 {
      if x / SLICE < |m.pcs| {
        assert m.pcs[x / SLICE] == Scan(SLICE * (x / SLICE));
      }
    }
  }

  lemma StartInv(job: Job)
    ensures Inv(job, Start(job))
  {
    hide Clean, Dirty, DocAt, NumDocs, Logs;
    StartLogs(job);
    var m := Start(job);
    forall t | 0 <= t < |m.pcs| ensures PcOk(job, m.table, t, m.pcs[t]) {
      assert m.pcs[t] == Scan(SLICE * t);
    }
  }

  // ----- one step: table and threads ----------------------------------------------------------

  lemma TableStep(job: Job, m: Machine, t: nat)
    requires Sound(job) && Inv(job, m) && CanStep(job, m, t)
    ensures TableOk(job, Step(job, m, t).table) && Grows(m.table, Step(job, m, t).table)
  {
    hide Clean, Dirty, DocAt, TermAt, Loc, LocStart, PathTaken, Logs, PairsOk, SpansOk, CountsOk, SlotOk, RunEnd, HasWide, StartsRun;
    assert PcOk(job, m.table, t, m.pcs[t]);
    match m.pcs[t]
    case Probe(i, slot) =>
      if m.table[slot] == 0 {
        FillSlot(job, m.table, slot, i);
      }
    case _ =>
  }

  lemma HoldsKept(job: Job, table: seq<nat>, table': seq<nat>, slot: nat, term: Term)
    requires Grows(table, table') && Holds(job, table, slot, term)
    ensures Holds(job, table', slot, term)
  {
  }

  lemma PcKept(job: Job, table: seq<nat>, table': seq<nat>, t: nat, pc: Pc)
    requires Grows(table, table') && PcOk(job, table, t, pc)
    ensures PcOk(job, table', t, pc)
  {
    hide Clean, Dirty, TermAt, Holds, PathTaken, Grows, SliceEnd;
    match pc
    case Probe(i, slot) => PathKept(job, table, table', TermAt(job.text, i), slot);
    case Claim(i, winner) => HoldsKept(job, table, table', winner, TermAt(job.text, i));
    case StorePair(i, winner, _) => HoldsKept(job, table, table', winner, TermAt(job.text, i));
    case _ =>
  }

  lemma AfterByteOk(job: Job, table: seq<nat>, t: nat, i: nat)
    requires Sound(job) && SLICE * t <= i < SliceEnd(job, t)
    ensures PcOk(job, table, t, AfterByte(job, i)) && Advances(Scan(i), AfterByte(job, i))
    ensures AfterByte(job, i) == Scan(i + 1) ==> !Clean(job.text, i) && !Dirty(job.text, i)
    ensures !AfterByte(job, i).StorePair? && !AfterByte(job, i).StoreSpan? && !AfterByte(job, i).CountToken?
    ensures AfterByte(job, i).Scan? ==> AfterByte(job, i) == Scan(i + 1)
  {
    hide TermAt, PathTaken, HasWide, RunEnd, StartsRun;
    PathStarts(job, table, TermAt(job.text, i));
  }

  // The thread that moved.
  lemma MovedOk(job: Job, m: Machine, t: nat)
    requires Sound(job) && Inv(job, m) && CanStep(job, m, t)
    ensures var m' := Step(job, m, t); t < |m'.pcs| && PcOk(job, m'.table, t, m'.pcs[t]) && Advances(m.pcs[t], m'.pcs[t])
  {
    hide Clean, Dirty, DocAt, TermAt, Loc, LocStart, PathTaken, Logs, PairsOk, SpansOk, CountsOk, SlotOk, RunEnd, HasWide,
         StartsRun, AfterByte, NextSlot, NumDocs;
    assert PcOk(job, m.table, t, m.pcs[t]);
    match m.pcs[t]
    case Scan(i) => AfterByteOk(job, m.table, t, i);
    case Probe(i, slot) =>
      if m.table[slot] == 0 {
        FillSlot(job, m.table, slot, i);
      } else if SlotTerm(job, m.table[slot]) != TermAt(job.text, i) {
        PassSlot(job, m.table, TermAt(job.text, i), slot);
      }
    case _ =>
  }

  lemma OthersStay(job: Job, m: Machine, t: nat, k: nat)
    requires CanStep(job, m, t) && k < |m.pcs| && k != t
    ensures |Step(job, m, t).pcs| == |m.pcs| && Step(job, m, t).pcs[k] == m.pcs[k]
  {
    hide Clean, Dirty, DocAt, TermAt, Loc, LocStart, RunEnd, HasWide, StartsRun, AfterByte, NextSlot;
  }

  lemma PcsStep(job: Job, m: Machine, t: nat)
    requires Sound(job) && Inv(job, m) && CanStep(job, m, t)
    ensures PcsOk(job, Step(job, m, t))
  {
    hide Step, Clean, Dirty, PcOk, Logs, PairsOk, SpansOk, CountsOk, TableOk, Grows;
    var m' := Step(job, m, t);
    TableStep(job, m, t);
    StepShape(job, m, t);
    forall k | 0 <= k < |m'.pcs| ensures PcOk(job, m'.table, k, m'.pcs[k]) {
      if k == t {
        MovedOk(job, m, t);
      } else {
        OthersStay(job, m, t, k);
        PcKept(job, m.table, m'.table, k, m.pcs[k]);
      }
    }
  }

  lemma StepShape(job: Job, m: Machine, t: nat)
    requires Shape(job, m) && CanStep(job, m, t)
    ensures Shape(job, Step(job, m, t))
  {
    hide Clean, Dirty, DocAt, TermAt, Loc, LocStart, RunEnd, HasWide, StartsRun, AfterByte, NextSlot, NumDocs;
  }

  // ----- one step: logs ----------------------------------------------------------------------

  lemma MoveStages(job: Job, m: Machine, t: nat)
    requires Sound(job) && Inv(job, m) && CanStep(job, m, t)
    ensures var i, m' := m.pcs[t].i, Step(job, m, t);
            && |m'.pcs| == |m.pcs| && StageOf(m, i) == Stage(m.pcs[t], i) && StageOf(m', i) == Stage(m'.pcs[t], i)
            && i / SLICE == t && i < |job.text|
    ensures forall x: nat :: x != m.pcs[t].i ==> StageOf(Step(job, m, t), x) == StageOf(m, x)
  {
    hide Step, Clean, Dirty, PcsOk, Logs, PairsOk, SpansOk, CountsOk, TableOk;
    var i, m' := m.pcs[t].i, Step(job, m, t);
    StepShape(job, m, t);
    ThreadOf(job, m, t);
    MovedOk(job, m, t);
    StepPcs(job, m, t);
    forall x: nat | x != i ensures StageOf(m', x) == StageOf(m, x) {
      StageKept(m, t, m'.pcs[t], x);
    }
  }

  lemma ThreadOf(job: Job, m: Machine, t: nat)
    requires PcsOk(job, m) && CanStep(job, m, t)
    ensures SLICE * t <= m.pcs[t].i < SLICE * t + SLICE && m.pcs[t].i < |job.text| && m.pcs[t].i / SLICE == t
  {
    hide Clean, Dirty, PathTaken, Holds;
    assert PcOk(job, m.table, t, m.pcs[t]);
  }

  lemma StepPcs(job: Job, m: Machine, t: nat)
    requires CanStep(job, m, t)
    ensures t < |Step(job, m, t).pcs| && Step(job, m, t).pcs == At(m, t, Step(job, m, t).pcs[t]).pcs
  {
    hide Clean, Dirty, DocAt, TermAt, Loc, LocStart, RunEnd, HasWide, StartsRun, AfterByte, NextSlot;
  }

  // The run at hand enters the log of this kind and stage.
  predicate Reaches(job: Job, pc: Pc, pc': Pc, dirty: bool, stage: nat) {
    Kind(job, dirty, pc.i) && Stage(pc, pc.i) < stage <= Stage(pc', pc.i)
  }

  lemma LogStep(job: Job, m: Machine, m': Machine, i: nat, log: seq<nat>, dirty: bool, stage: nat)
    requires IsLog(job, m, log, dirty, stage) && StageOf(m, i) <= StageOf(m', i)
    requires forall x: nat :: x != i ==> StageOf(m', x) == StageOf(m, x)
    ensures if Kind(job, dirty, i) && StageOf(m, i) < stage <= StageOf(m', i) then IsLog(job, m', log + [i], dirty, stage)
            else IsLog(job, m', log, dirty, stage)
  {
    hide StageOf, Kind;
    if Kind(job, dirty, i) && StageOf(m, i) < stage <= StageOf(m', i) {
      assert i !in log;
      var all := log + [i];
      forall x ensures x in all <==> Kind(job, dirty, x) && StageOf(m', x) >= stage {
        assert x in all <==> x in log || x == i;
      }
    }
  }

  // What a step appends, and to which log.
  lemma StepLogs(job: Job, m: Machine, t: nat)
    requires Sound(job) && Inv(job, m) && CanStep(job, m, t)
    ensures var pc, m' := m.pcs[t], Step(job, m, t); var pc' := m'.pcs[t];
            && Stage(pc, pc.i) <= Stage(pc', pc.i)
            && m'.claims == (if Reaches(job, pc, pc', false, 1) then m.claims + [pc.i] else m.claims)
            && m'.spanClaims == (if Reaches(job, pc, pc', true, 1) then m.spanClaims + [pc.i] else m.spanClaims)
            && m'.counted == (if Reaches(job, pc, pc', false, 3) then m.counted + [pc.i] else m.counted)
  {
    hide Clean, Dirty, DocAt, TermAt, Loc, LocStart, PathTaken, Logs, PairsOk, SpansOk, CountsOk, TableOk, SlotOk, RunEnd,
         HasWide, StartsRun, AfterByte, NextSlot, NumDocs, Holds;
    assert PcOk(job, m.table, t, m.pcs[t]);
    NotBoth(job.text, m.pcs[t].i);
    match m.pcs[t]
    case Scan(i) => AfterByteOk(job, m.table, t, i);
    case _ =>
  }

  lemma NotBoth(text: seq<byte>, i: nat)
    ensures !(Clean(text, i) && Dirty(text, i))
  {
  }

  lemma LogsStep(job: Job, m: Machine, t: nat)
    requires Sound(job) && Inv(job, m) && CanStep(job, m, t)
    ensures Logs(job, Step(job, m, t))
  {
    hide Step, Clean, Dirty, PcsOk, PairsOk, SpansOk, CountsOk, TableOk, IsLog, Stage, StageOf, Kind, Shape;
    var m' := Step(job, m, t);
    var i := m.pcs[t].i;
    MoveStages(job, m, t);
    StepLogs(job, m, t);
    LogStep(job, m, m', i, m.claims, false, 1);
    LogStep(job, m, m', i, m.spanClaims, true, 1);
    LogStep(job, m, m', i, m.counted, false, 3);
  }

  // ----- one step: buffers -----------------------------------------------------------------------

  // Runs are apart, so few fit.
  lemma {:induction false} StartsFit(text: seq<byte>, log: seq<nat>)
    requires NoDuplicates(log) && forall x :: x in log ==> StartsRun(text, x)
    ensures 2 * |log| <= |text| + 1
  {
    var halves := seq(|log|, k requires 0 <= k < |log| => log[k] / 2);
    forall j, k | 0 <= j < k < |log| ensures halves[j] != halves[k] {
      assert log[j] in log && log[k] in log;
      HalvesApart(text, log[j], log[k]);
    }
    forall k | 0 <= k < |halves| ensures halves[k] < (|text| + 1) / 2 {
      assert log[k] in log;
    }
    Pigeonhole(halves, (|text| + 1) / 2);
  }

  lemma HalvesApart(text: seq<byte>, x: nat, y: nat)
    requires StartsRun(text, x) && StartsRun(text, y) && x != y
    ensures x / 2 != y / 2
  {
    hide Tokenish;
    assert x + 1 == y || y + 1 == x || x + 1 < y || y + 1 < x;
  }

  lemma {:induction false} Pigeonhole(s: seq<nat>, n: nat)
    requires NoDuplicates(s) && forall k :: 0 <= k < |s| ==> s[k] < n
    ensures |s| <= n
    decreases n
  {
    if |s| > 0 {
      assert s[0] < n;
      if exists k :: 0 <= k < |s| && s[k] == n - 1 {
        var k :| 0 <= k < |s| && s[k] == n - 1;
        var rest := s[..k] + s[k + 1..];
        forall i, j | 0 <= i < j < |rest| ensures rest[i] != rest[j] {
          assert rest[i] == s[if i < k then i else i + 1] && rest[j] == s[if j < k then j else j + 1];
        }
        forall j | 0 <= j < |rest| ensures rest[j] < n - 1 {
          assert rest[j] == s[if j < k then j else j + 1];
        }
        Pigeonhole(rest, n - 1);
      } else {
        Pigeonhole(s, n - 1);
      }
    }
  }

  lemma ClaimsFit(job: Job, m: Machine)
    requires Logs(job, m)
    ensures |m.claims| <= job.PairCap()
  {
    hide Clean, StageOf, StartsRun;
    forall x | x in m.claims ensures StartsRun(job.text, x) {
      assert Kind(job, false, x);
      CleanStarts(job.text, x);
    }
    StartsFit(job.text, m.claims);
  }

  // An entry of another run.
  lemma PairKept(job: Job, m: Machine, t: nat, p: nat)
    requires Sound(job) && Inv(job, m) && CanStep(job, m, t)
    requires p < |m.claims| && m.claims[p] != m.pcs[t].i
    requires p < |Step(job, m, t).claims| && Step(job, m, t).claims[p] == m.claims[p]
    ensures PairAt(job, Step(job, m, t), p)
  {
    hide Step, Clean, Dirty, PcsOk, SpansOk, CountsOk, TableOk, IsLog, Stage, Shape, DocAt, TermAt, Key, KeyOrd, KeyDoc, Holds;
    var m' := Step(job, m, t);
    var x := m.claims[p];
    MoveStages(job, m, t);
    TableStep(job, m, t);
    StepPcs(job, m, t);
    assert PairAt(job, m, p);
    if StageOf(m, x) == 1 {
      assert x / SLICE != t ==> m'.pcs[x / SLICE] == m.pcs[x / SLICE];
      StageOne(m.pcs[x / SLICE], x);
    } else {
      PairWritten(job, m, t, p);
      HoldsKept(job, m.table, m'.table, KeyOrd(m.pairs[p]), TermAt(job.text, x));
    }
  }

  lemma StageOne(pc: Pc, i: nat)
    requires Stage(pc, i) == 1
    ensures pc.i == i
  {
  }

  // A store only touches the index its run claimed.
  lemma PairWritten(job: Job, m: Machine, t: nat, p: nat)
    requires Sound(job) && Inv(job, m) && CanStep(job, m, t)
    requires p < |m.claims| && m.claims[p] != m.pcs[t].i && p < |m.pairs|
    ensures p < |Step(job, m, t).pairs| && Step(job, m, t).pairs[p] == m.pairs[p]
  {
    hide Clean, Dirty, SpansOk, CountsOk, TableOk, DocAt, TermAt, Key, KeyOrd, KeyDoc, Holds, AfterByte, Loc, SlotTerm,
         NextSlot, PathTaken, RunEnd, HasWide, StartsRun;
    if m.pcs[t].StorePair? {
      OwnIndex(job, m, t);
    }
  }

  lemma OwnIndex(job: Job, m: Machine, t: nat)
    requires Inv(job, m) && CanStep(job, m, t) && m.pcs[t].StorePair?
    ensures m.pcs[t].p < |m.claims| && m.claims[m.pcs[t].p] == m.pcs[t].i
  {
    hide Clean, Dirty, SpansOk, CountsOk, TableOk, DocAt, TermAt, Key, KeyOrd, KeyDoc, Holds, PathTaken, IsPair;
    var i := m.pcs[t].i;
    ThreadOf(job, m, t);
    assert PcOk(job, m.table, t, m.pcs[t]);
    assert StageOf(m, i) == 1 && Kind(job, false, i);
    assert i in m.claims;
    var q :| 0 <= q < |m.claims| && m.claims[q] == i;
    assert PairAt(job, m, q);
  }

  // The run whose index it is.
  lemma PairMoved(job: Job, m: Machine, t: nat, p: nat)
    requires Sound(job) && Inv(job, m) && CanStep(job, m, t)
    requires p < |m.claims| && m.claims[p] == m.pcs[t].i
    requires p < |Step(job, m, t).claims| && Step(job, m, t).claims[p] == m.claims[p]
    ensures PairAt(job, Step(job, m, t), p)
  {
    hide Clean, Dirty, SpansOk, CountsOk, DocAt, TermAt, Key, KeyOrd, KeyDoc, AfterByte, Loc, SlotTerm,
         NextSlot, PathTaken, RunEnd, HasWide, StartsRun, SlotOk, NumDocs;
    var pc := m.pcs[t];
    var i := pc.i;
    MoveStages(job, m, t);
    ClaimsFit(job, m);
    DocInRange(job.text, i);
    assert PcOk(job, m.table, t, pc) && PairAt(job, m, p);
    assert i in m.claims;
    assert StageOf(m, i) >= 1;
    match pc
    case StorePair(_, winner, q) => KeyParts(winner, DocAt(job.text, i));
    case _ =>
  }

  lemma PairClaimed(job: Job, m: Machine, t: nat, p: nat)
    requires Sound(job) && Inv(job, m) && CanStep(job, m, t)
    requires p == |m.claims| < |Step(job, m, t).claims|
    ensures PairAt(job, Step(job, m, t), p)
  {
    hide Clean, Dirty, SpansOk, CountsOk, DocAt, TermAt, Key, KeyOrd, KeyDoc, AfterByte, Loc, SlotTerm,
         NextSlot, PathTaken, RunEnd, HasWide, StartsRun, SlotOk, NumDocs, Logs, TableOk;
    ThreadOf(job, m, t);
  }

  lemma PairsStep(job: Job, m: Machine, t: nat)
    requires Sound(job) && Inv(job, m) && CanStep(job, m, t)
    ensures PairsOk(job, Step(job, m, t))
  {
    hide Step, Inv, PairAt, Reaches, Stage;
    var m' := Step(job, m, t);
    StepLogs(job, m, t);
    forall p | 0 <= p < |m'.claims| ensures PairAt(job, m', p) {
      if p == |m.claims| {
        PairClaimed(job, m, t, p);
      } else if m.claims[p] == m.pcs[t].i {
        PairMoved(job, m, t, p);
      } else {
        PairKept(job, m, t, p);
      }
    }
  }

  lemma SpanKept(job: Job, m: Machine, t: nat, d: nat)
    requires Sound(job) && Inv(job, m) && CanStep(job, m, t)
    requires d < |m.spanClaims| && m.spanClaims[d] != m.pcs[t].i
    requires d < |Step(job, m, t).spanClaims| && Step(job, m, t).spanClaims[d] == m.spanClaims[d]
    ensures SpanAt(job, Step(job, m, t), d)
  {
    hide Step, Clean, Dirty, PcsOk, PairsOk, CountsOk, TableOk, IsLog, Stage, DocAt, TermAt, Key, KeyOrd, KeyDoc, Holds, Loc;
    var m' := Step(job, m, t);
    var x := m.spanClaims[d];
    MoveStages(job, m, t);
    StepPcs(job, m, t);
    assert SpanAt(job, m, d);
    if StageOf(m, x) == 1 {
      assert x / SLICE != t ==> m'.pcs[x / SLICE] == m.pcs[x / SLICE];
      StageOne(m.pcs[x / SLICE], x);
    } else if d < job.SpanCap() {
      SpanWritten(job, m, t, d);
    }
  }

  lemma SpanWritten(job: Job, m: Machine, t: nat, d: nat)
    requires Sound(job) && Inv(job, m) && CanStep(job, m, t)
    requires d < |m.spanClaims| && m.spanClaims[d] != m.pcs[t].i && d < |m.spans|
    ensures d < |Step(job, m, t).spans| && Step(job, m, t).spans[d] == m.spans[d]
  {
    hide Clean, Dirty, PairsOk, CountsOk, TableOk, DocAt, TermAt, Key, KeyOrd, KeyDoc, Holds, AfterByte, Loc, SlotTerm,
         NextSlot, PathTaken, RunEnd, HasWide, StartsRun;
    if m.pcs[t].StoreSpan? {
      OwnSpan(job, m, t);
    }
  }

  lemma OwnSpan(job: Job, m: Machine, t: nat)
    requires Inv(job, m) && CanStep(job, m, t) && m.pcs[t].StoreSpan?
    ensures m.pcs[t].d < |m.spanClaims| && m.pcs[t].d < job.SpanCap() && m.spanClaims[m.pcs[t].d] == m.pcs[t].i
  {
    hide Clean, Dirty, PairsOk, CountsOk, TableOk, DocAt, TermAt, Key, KeyOrd, KeyDoc, Holds, PathTaken, IsPair, Loc;
    var i := m.pcs[t].i;
    ThreadOf(job, m, t);
    assert PcOk(job, m.table, t, m.pcs[t]);
    assert StageOf(m, i) == 1 && Kind(job, true, i);
    assert i in m.spanClaims;
    var q :| 0 <= q < |m.spanClaims| && m.spanClaims[q] == i;
    assert SpanAt(job, m, q);
  }

  lemma SpanMoved(job: Job, m: Machine, t: nat, d: nat)
    requires Sound(job) && Inv(job, m) && CanStep(job, m, t)
    requires d < |m.spanClaims| && m.spanClaims[d] == m.pcs[t].i
    requires d < |Step(job, m, t).spanClaims| && Step(job, m, t).spanClaims[d] == m.spanClaims[d]
    ensures SpanAt(job, Step(job, m, t), d)
  {
    hide Clean, Dirty, PairsOk, CountsOk, DocAt, TermAt, Key, KeyOrd, KeyDoc, AfterByte, Loc, SlotTerm,
         NextSlot, PathTaken, RunEnd, HasWide, StartsRun, SlotOk, NumDocs, TableOk;
    var pc := m.pcs[t];
    MoveStages(job, m, t);
    assert PcOk(job, m.table, t, pc) && SpanAt(job, m, d);
    assert pc.i in m.spanClaims;
    assert Kind(job, true, pc.i) && StageOf(m, pc.i) >= 1;
    NotBoth(job.text, pc.i);
  }

  lemma SpanClaimed(job: Job, m: Machine, t: nat, d: nat)
    requires Sound(job) && Inv(job, m) && CanStep(job, m, t)
    requires d == |m.spanClaims| < |Step(job, m, t).spanClaims|
    ensures SpanAt(job, Step(job, m, t), d)
  {
    hide Clean, Dirty, PairsOk, CountsOk, DocAt, TermAt, Key, KeyOrd, KeyDoc, AfterByte, Loc, SlotTerm,
         NextSlot, PathTaken, RunEnd, HasWide, StartsRun, SlotOk, NumDocs, Logs, TableOk;
    ThreadOf(job, m, t);
  }

  lemma SpansStep(job: Job, m: Machine, t: nat)
    requires Sound(job) && Inv(job, m) && CanStep(job, m, t)
    ensures SpansOk(job, Step(job, m, t))
  {
    hide Step, Inv, SpanAt, Reaches, Stage;
    var m' := Step(job, m, t);
    StepLogs(job, m, t);
    forall d | 0 <= d < |m'.spanClaims| ensures SpanAt(job, m', d) {
      if d == |m.spanClaims| {
        SpanClaimed(job, m, t, d);
      } else if m.spanClaims[d] == m.pcs[t].i {
        SpanMoved(job, m, t, d);
      } else {
        SpanKept(job, m, t, d);
      }
    }
  }

  lemma OccurrencesSnoc(text: seq<byte>, log: seq<nat>, i: nat, d: nat)
    ensures Occurrences(text, log + [i], d) == Occurrences(text, log, d) + if DocAt(text, i) == d then 1 else 0
  {
    assert (log + [i])[..|log|] == log;
  }

  lemma CountsStep(job: Job, m: Machine, t: nat)
    requires Sound(job) && Inv(job, m) && CanStep(job, m, t)
    ensures CountsOk(job, Step(job, m, t))
  {
    hide Clean, Dirty, PairsOk, SpansOk, DocAt, TermAt, Key, KeyOrd, KeyDoc, AfterByte, Loc, SlotTerm,
         NextSlot, PathTaken, RunEnd, HasWide, StartsRun, SlotOk, NumDocs, TableOk, Logs, Occurrences;
    var m' := Step(job, m, t);
    ThreadOf(job, m, t);
    var i := m.pcs[t].i;
    DocInRange(job.text, i);
    forall d | 0 <= d < |m'.docTokens| ensures m'.docTokens[d] == Occurrences(job.text, m'.counted, d) {
      OccurrencesSnoc(job.text, m.counted, i, d);
    }
  }

  // ----- every run -------------------------------------------------------------------------------

  lemma StepInv(job: Job, m: Machine, t: nat)
    requires Sound(job) && Inv(job, m) && CanStep(job, m, t)
    ensures Inv(job, Step(job, m, t))
  {
    hide Step, PcsOk, Logs, PairsOk, SpansOk, CountsOk, TableOk;
    StepShape(job, m, t);
    TableStep(job, m, t);
    PcsStep(job, m, t);
    LogsStep(job, m, t);
    PairsStep(job, m, t);
    SpansStep(job, m, t);
    CountsStep(job, m, t);
  }

  // Every state of every run, whatever the interleaving.
  lemma {:induction false} RunInv(job: Job, run: seq<Machine>, k: nat)
    requires Sound(job) && IsRun(job, run) && k < |run|
    ensures Inv(job, run[k])
    decreases k
  {
    hide Step, Inv, Start;
    if k == 0 {
      StartInv(job);
    } else {
      RunInv(job, run, k - 1);
      assert Moves(job, run[k - 1], run[k - 1 + 1]);
      var t :| CanStep(job, run[k - 1], t) && run[k] == Step(job, run[k - 1], t);
      StepInv(job, run[k - 1], t);
    }
  }
}
