// The device top-k kernel: the threads of a block keep local lists, publish them in
// shared memory, and pick the best entry left k times over by a tree reduction.
// Between two barriers the threads run in any order.
module TopK {
  import opened Bits
  import opened Machines
  import opened TopKList
  import opened TopKChoice

  datatype Job = Job(scores: seq<real>, k: nat, threads: nat)

  predicate PowerOfTwo(n: nat) { n == 1 || (n > 1 && n % 2 == 0 && PowerOfTwo(n / 2)) }

  ghost predicate Sound(job: Job) {
    Scores(job.scores) && job.k > 0 && PowerOfTwo(job.threads)
  }

  // rv and ri: a score and the shared slot it came from.
  datatype Cand = Cand(score: real, slot: nat)

  // What stands between two barriers.
  datatype Phase =
    | Load                         // the local list, copied to shared memory
    | Scan(r: nat)                 // best of every blockDim-th slot
    | Reduce(r: nat, step: nat)    // one level of the tree
    | Emit(r: nat)                 // thread 0 reports and consumes
    | Done

  // `arrived`: the threads that wait at the barrier. `picks` logs the slots consumed.
  datatype Machine = Machine(phase: Phase, arrived: set<nat>, slots: seq<Hit>, best: seq<Cand>, out: seq<Hit>,
                             picks: seq<nat>)

  ghost predicate Starts(job: Job, m: Machine) {
    && m.phase == Load && m.arrived == {} && |m.slots| == Span(job.k, job.threads) && |m.best| == job.threads
    && |m.out| == job.k && m.picks == []
  }

  // ----- one thread, one phase ------------------------------------------------------------

  function BestOf(slots: seq<Hit>, i: nat, b: nat, c: Cand): Cand
    decreases |slots| - i
  {
    if b == 0 || i >= |slots| then c
    else BestOf(slots, i + b, b, if slots[i].score > c.score then Cand(slots[i].score, i) else c)
  }

  method ScanSlots(slots: seq<Hit>, t: nat, b: nat) returns (best: real, besti: nat)
    requires b > 0
    ensures Cand(best, besti) == BestOf(slots, t, b, Cand(SENTINEL, 0))
  {
    best, besti := SENTINEL, 0;
    var i := t;
    while i < |slots|
      invariant BestOf(slots, i, b, Cand(best, besti)) == BestOf(slots, t, b, Cand(SENTINEL, 0))
      decreases |slots| - i
    {
      if slots[i].score > best {
        best, besti := slots[i].score, i;
      }
      i := i + b;
    }
  }

  function Row(slots: seq<Hit>, k: nat, t: nat): seq<Hit> {
    if Span(k, t) + k <= |slots| then slots[Span(k, t)..Span(k, t) + k] else []
  }

  function PutRow(slots: seq<Hit>, k: nat, t: nat, row: seq<Hit>): (r: seq<Hit>)
    ensures |r| == |slots|
  {
    if Span(k, t) + |row| <= |slots| then slots[..Span(k, t)] + row + slots[Span(k, t) + |row|..] else slots
  }

  function Consume(slots: seq<Hit>, p: nat): (r: seq<Hit>)
    ensures |r| == |slots|
  {
    if p < |slots| then slots[p := Hit(SENTINEL, slots[p].doc)] else slots
  }

  function Doc(slots: seq<Hit>, p: nat): nat { if p < |slots| then slots[p].doc else NO_DOC }

  function CandAt(m: Machine, t: nat): Cand { if t < |m.best| then m.best[t] else Cand(SENTINEL, 0) }

  function Act(job: Job, m: Machine, t: nat): Machine {
    match m.phase
    case Load => m.(slots := PutRow(m.slots, job.k, t, Local(job.scores, job.k, t, job.threads)))
    case Scan(r) => m.(best := Put(m.best, t, BestOf(m.slots, t, job.threads, Cand(SENTINEL, 0))))
    case Reduce(r, step) =>
      if t < step && CandAt(m, t + step).score > CandAt(m, t).score then m.(best := Put(m.best, t, CandAt(m, t + step)))
      else m
    case Emit(r) =>
      if t != 0 then m
      else
        var c := CandAt(m, 0);
        m.(out := Put(m.out, r, Hit(c.score, Doc(m.slots, c.slot))), slots := Consume(m.slots, c.slot),
           picks := m.picks + [c.slot])
    case Done => m
  }

  function Next(job: Job, ph: Phase): Phase {
    match ph
    case Load => Scan(0)
    case Scan(r) => if job.threads / 2 > 0 then Reduce(r, job.threads / 2) else Emit(r)
    case Reduce(r, step) => if step / 2 > 0 then Reduce(r, step / 2) else Emit(r)
    case Emit(r) => if r + 1 < job.k then Scan(r + 1) else Done
    case Done => Done
  }

  ghost predicate Everyone(job: Job, arrived: set<nat>) { forall t: nat :: t < job.threads ==> t in arrived }

  ghost predicate CanStep(job: Job, m: Machine, t: nat) {
    m.phase != Done && t < job.threads && t !in m.arrived
  }

  // The barrier opens when the last thread arrives.
  ghost function Step(job: Job, m: Machine, t: nat): Machine {
    var arrived := m.arrived + {t};
    if Everyone(job, arrived) then Act(job, m, t).(phase := Next(job, m.phase), arrived := {})
    else Act(job, m, t).(arrived := arrived)
  }

  ghost predicate Moves(job: Job, m: Machine, m': Machine) {
    exists t :: CanStep(job, m, t) && m' == Step(job, m, t)
  }

  ghost predicate IsRun(job: Job, run: seq<Machine>) {
    && run != [] && Starts(job, run[0])
    && forall i :: 0 <= i < |run| - 1 ==> Moves(job, run[i], run[i + 1])
  }

  // ----- the invariant --------------------------------------------------------------------------

  function Whole(job: Job): seq<Hit> { Pool(job.scores, job.k, job.threads, job.threads) }

  function Consumed(pool: seq<Hit>, picks: seq<nat>): (r: seq<Hit>)
    ensures |r| == |pool|
  {
    seq(|pool|, p requires 0 <= p < |pool| => if p in picks then Hit(SENTINEL, pool[p].doc) else pool[p])
  }

  ghost predicate Shape(job: Job, m: Machine) {
    && |m.slots| == Span(job.k, job.threads) && |m.best| == job.threads && |m.out| == job.k
    && !Everyone(job, m.arrived)
  }

  // r rounds are over.
  ghost predicate Rounds(job: Job, m: Machine, r: nat) {
    && r <= job.k == |m.out| && |m.picks| == r
    && m.slots == Consumed(Whole(job), m.picks) && Chosen(Whole(job), m.picks, m.out[..r])
  }

  ghost predicate Points(slots: seq<Hit>, c: Cand) {
    c.score >= SENTINEL && (if c.score == SENTINEL then c.slot == 0 else c.slot < |slots| && slots[c.slot].score == c.score)
  }

  ghost predicate Scanned(slots: seq<Hit>, t: nat, b: nat, c: Cand) {
    Points(slots, c) && forall p: nat :: p in Strided(t, b, |slots|) ==> p < |slots| && slots[p].score <= c.score
  }

  // Some candidate the reduction has still to look at is no worse than slot p.
  ghost predicate Covered(m: Machine, step: nat, p: nat) {
    p < |m.slots| && exists t: nat ::
      t < step + step && CandAt(m, t).score >= m.slots[p].score && (t >= step ==> t - step !in m.arrived)
  }

  ghost predicate Loading(job: Job, m: Machine) {
    m.picks == [] && forall t: nat :: t in m.arrived && t < job.threads ==>
      Row(m.slots, job.k, t) == Local(job.scores, job.k, t, job.threads)
  }

  ghost predicate Scanning(job: Job, m: Machine, r: nat) {
    Rounds(job, m, r) && r < job.k &&
    forall t: nat :: t in m.arrived && t < job.threads ==> Scanned(m.slots, t, job.threads, CandAt(m, t))
  }

  ghost predicate Reducing(job: Job, m: Machine, r: nat, step: nat) {
    && Rounds(job, m, r) && r < job.k && PowerOfTwo(step) && step + step <= job.threads
    && (forall t: nat :: t < job.threads ==> Points(m.slots, CandAt(m, t)))
    && (forall p: nat :: p < |m.slots| ==> Covered(m, step, p))
  }

  ghost predicate Topped(m: Machine) {
    Points(m.slots, CandAt(m, 0)) && forall p: nat :: p < |m.slots| ==> m.slots[p].score <= CandAt(m, 0).score
  }

  ghost predicate Emitting(job: Job, m: Machine, r: nat) {
    if 0 in m.arrived then r < job.k && Rounds(job, m, r + 1) else Rounds(job, m, r) && r < job.k && Topped(m)
  }

  ghost predicate InPhase(job: Job, m: Machine) {
    match m.phase
    case Load => Loading(job, m)
    case Scan(r) => Scanning(job, m, r)
    case Reduce(r, step) => Reducing(job, m, r, step)
    case Emit(r) => Emitting(job, m, r)
    case Done => Rounds(job, m, job.k)
  }

  ghost predicate Inv(job: Job, m: Machine) { Shape(job, m) && InPhase(job, m) }

  // What holds once thread t has acted and before the barrier opens.
  ghost predicate Acted(job: Job, m: Machine, t: nat) {
    var m' := Act(job, m, t).(arrived := m.arrived + {t});
    |m'.slots| == |m.slots| && |m'.best| == |m.best| && |m'.out| == |m.out| && InPhase(job, m')
  }

  lemma StartInv(job: Job, m: Machine)
    requires Sound(job) && Starts(job, m)
    ensures Inv(job, m)
  {
    assert job.threads > 0;
    assert 0 !in m.arrived;
  }

  // ----- Load --------------------------------------------------------------------------------

  lemma PutRowAt(slots: seq<Hit>, k: nat, t: nat, u: nat, n: nat, row: seq<Hit>)
    requires |slots| == Span(k, n) && t < n && u < n && |row| == k
    ensures Row(PutRow(slots, k, t, row), k, u) == if u == t then row else Row(slots, k, u)
  {
    hide Span;
    SpanUpTo(k, t, n);
    SpanUpTo(k, u, n);
    var at, from := Span(k, t), Span(k, u);
    var out := PutRow(slots, k, t, row);
    assert Row(out, k, u) == out[from..from + k] && Row(slots, k, u) == slots[from..from + k];
    if u == t {
      assert out[at..at + k] == row;
    } else if u < t {
      SpanUpTo(k, u, t);
      assert out[..at] == slots[..at];
      assert out[from..from + k] == out[..at][from..from + k] == slots[..at][from..from + k];
    } else {
      SpanUpTo(k, t, u);
      assert out[at + k..] == slots[at + k..];
      assert out[from..from + k] == out[at + k..][from - at - k..from - at] == slots[at + k..][from - at - k..from - at];
    }
  }

  lemma LoadActs(job: Job, m: Machine, t: nat)
    requires Shape(job, m) && m.phase == Load && Loading(job, m) && CanStep(job, m, t)
    ensures Acted(job, m, t)
  {
    hide Local, Row, PutRow;
    var row := Local(job.scores, job.k, t, job.threads);
    forall u: nat | u in m.arrived + {t} && u < job.threads
      ensures Row(PutRow(m.slots, job.k, t, row), job.k, u) == Local(job.scores, job.k, u, job.threads)
    {
      PutRowAt(m.slots, job.k, t, u, job.threads, row);
    }
  }

  lemma {:induction false} RowsMake(job: Job, slots: seq<Hit>, n: nat)
    requires n <= job.threads && Span(job.k, n) <= |slots|
    requires forall t: nat :: t < n ==> Row(slots, job.k, t) == Local(job.scores, job.k, t, job.threads)
    ensures slots[..Span(job.k, n)] == Pool(job.scores, job.k, job.threads, n)
    decreases n
  {
    hide Local;
    if n > 0 {
      RowsMake(job, slots, n - 1);
      assert Row(slots, job.k, n - 1) == slots[Span(job.k, n - 1)..Span(job.k, n)];
      assert slots[..Span(job.k, n)] == slots[..Span(job.k, n - 1)] + slots[Span(job.k, n - 1)..Span(job.k, n)];
    }
  }

  lemma LoadEnds(job: Job, m: Machine)
    requires Sound(job) && |m.slots| == Span(job.k, job.threads) && |m.out| == job.k
    requires Loading(job, m) && Everyone(job, m.arrived)
    ensures Scanning(job, m.(arrived := {}), 0)
  {
    hide Local, Row, Pool;
    RowsMake(job, m.slots, job.threads);
    assert m.slots[..|m.slots|] == m.slots;
    assert Consumed(Whole(job), []) == Whole(job);
    assert m.out[..0] == [];
  }

  // ----- Scan ------------------------------------------------------------------------------------

  lemma {:induction false} BestOfScans(slots: seq<Hit>, i: nat, b: nat, c: Cand)
    requires b > 0 && Points(slots, c)
    ensures BestOf(slots, i, b, c).score >= c.score
    ensures Scanned(slots, i, b, BestOf(slots, i, b, c))
    decreases |slots| - i
  {
    if i < |slots| {
      BestOfScans(slots, i + b, b, if slots[i].score > c.score then Cand(slots[i].score, i) else c);
    }
  }

  lemma ScanActs(job: Job, m: Machine, t: nat)
    requires Shape(job, m) && m.phase.Scan? && Scanning(job, m, m.phase.r) && CanStep(job, m, t)
    ensures Acted(job, m, t)
  {
    hide Rounds, BestOf, Scanned;
    var m' := Act(job, m, t).(arrived := m.arrived + {t});
    BestOfScans(m.slots, t, job.threads, Cand(SENTINEL, 0));
    SameRounds(job, m, m', m.phase.r);
    forall u: nat | u in m'.arrived && u < job.threads ensures Scanned(m'.slots, u, job.threads, CandAt(m', u)) {
      assert u != t ==> CandAt(m', u) == CandAt(m, u);
    }
  }

  lemma SameRounds(job: Job, m: Machine, m': Machine, r: nat)
    requires Rounds(job, m, r) && m'.out == m.out && m'.picks == m.picks && m'.slots == m.slots
    ensures Rounds(job, m', r)
  {
  }

  lemma Halves(n: nat)
    requires PowerOfTwo(n) && n / 2 > 0
    ensures PowerOfTwo(n / 2) && n / 2 + n / 2 == n
  {
  }

  lemma ScanEnds(job: Job, m: Machine, r: nat)
    requires Sound(job) && |m.slots| == Span(job.k, job.threads) && |m.best| == job.threads
    requires Scanning(job, m, r) && Everyone(job, m.arrived)
    ensures InPhase(job, m.(phase := Next(job, Scan(r)), arrived := {}))
  {
    hide Rounds, Scores, Scanned;
    var m' := m.(phase := Next(job, Scan(r)), arrived := {});
    SameRounds(job, m, m', r);
    forall t: nat | t < job.threads ensures Points(m'.slots, CandAt(m', t)) {
      ScannedPoints(m.slots, t, job.threads, CandAt(m, t));
    }
    forall p: nat | p < |m.slots|
      ensures p % job.threads < job.threads && m.slots[p].score <= CandAt(m', p % job.threads).score
    {
      OneStride(p, job.threads, |m.slots|);
      ScannedCovers(m.slots, p % job.threads, job.threads, CandAt(m, p % job.threads), p);
    }
    if job.threads / 2 > 0 {
      Halves(job.threads);
      forall p: nat | p < |m.slots| ensures Covered(m', job.threads / 2, p) {
        assert p % job.threads < job.threads / 2 + job.threads / 2;
      }
    }
  }

  lemma ScannedPoints(slots: seq<Hit>, t: nat, b: nat, c: Cand)
    requires Scanned(slots, t, b, c)
    ensures Points(slots, c)
  {
  }

  lemma ScannedCovers(slots: seq<Hit>, t: nat, b: nat, c: Cand, p: nat)
    requires Scanned(slots, t, b, c) && p in Strided(t, b, |slots|)
    ensures p < |slots| && slots[p].score <= c.score
  {
  }

  // ----- Reduce ------------------------------------------------------------------------------------

  // The half being read is written by nobody; a pair already compared keeps its better half.
  lemma ReduceActs(job: Job, m: Machine, t: nat)
    requires Shape(job, m) && m.phase.Reduce? && Reducing(job, m, m.phase.r, m.phase.step) && CanStep(job, m, t)
    ensures Acted(job, m, t)
  {
    hide Rounds, Points;
    var step := m.phase.step;
    var m' := Act(job, m, t).(arrived := m.arrived + {t});
    SameRounds(job, m, m', m.phase.r);
    forall u: nat | u < job.threads ensures Points(m'.slots, CandAt(m', u)) {
      assert CandAt(m', u) == CandAt(m, u) || CandAt(m', u) == CandAt(m, u + step);
    }
    forall p: nat | p < |m'.slots| ensures Covered(m', step, p) {
      assert Covered(m, step, p);
      var u: nat :| u < step + step && CandAt(m, u).score >= m.slots[p].score && (u >= step ==> u - step !in m.arrived);
      StillCovered(job, m, t, u, p);
    }
  }

  lemma StillCovered(job: Job, m: Machine, t: nat, u: nat, p: nat)
    requires m.phase.Reduce? && |m.best| == job.threads && p < |m.slots| && t < job.threads
    requires u < m.phase.step + m.phase.step <= job.threads
    requires CandAt(m, u).score >= m.slots[p].score && (u >= m.phase.step ==> u - m.phase.step !in m.arrived)
    ensures Covered(Act(job, m, t).(arrived := m.arrived + {t}), m.phase.step, p)
  {
    var m' := Act(job, m, t).(arrived := m.arrived + {t});
    var w := if u == t + m.phase.step then t else u;
    assert CandAt(m', w).score >= m'.slots[p].score;
  }

  lemma ReduceEnds(job: Job, m: Machine, r: nat, step: nat)
    requires Sound(job) && |m.best| == job.threads
    requires Reducing(job, m, r, step) && Everyone(job, m.arrived)
    ensures InPhase(job, m.(phase := Next(job, Reduce(r, step)), arrived := {}))
  {
    hide Rounds, Points, Scores;
    var m' := m.(phase := Next(job, Reduce(r, step)), arrived := {});
    SameRounds(job, m, m', r);
    forall p: nat | p < |m.slots| ensures exists t: nat :: t < step && CandAt(m', t).score >= m.slots[p].score {
      assert Covered(m, step, p);
      var t: nat :| t < step + step && CandAt(m, t).score >= m.slots[p].score && (t >= step ==> t - step !in m.arrived);
      assert CandAt(m', t).score >= m.slots[p].score;
    }
    forall t: nat | t < job.threads ensures Points(m'.slots, CandAt(m', t)) {
      assert CandAt(m', t) == CandAt(m, t);
    }
    if step / 2 > 0 {
      Halves(step);
      forall p: nat | p < |m.slots| ensures Covered(m', step / 2, p) {
        var t: nat :| t < step && CandAt(m', t).score >= m.slots[p].score;
        assert t < step / 2 + step / 2;
      }
    }
    if step / 2 == 0 {
      assert step == 1;
      forall p: nat | p < |m.slots| ensures m.slots[p].score <= CandAt(m', 0).score {
        var t: nat :| t < step && CandAt(m', t).score >= m.slots[p].score;
      }
    }
  }

  // ----- Emit ------------------------------------------------------------------------------------------

  lemma EmitActs(job: Job, m: Machine, t: nat)
    requires Sound(job) && Shape(job, m) && m.phase.Emit? && Emitting(job, m, m.phase.r) && CanStep(job, m, t)
    ensures Acted(job, m, t)
  {
    hide Rounds, Topped, Scores;
    var m' := Act(job, m, t).(arrived := m.arrived + {t});
    if t == 0 {
      Emits(job, m);
    } else {
      SameRounds(job, m, m', if 0 in m.arrived then m.phase.r + 1 else m.phase.r);
      SameTop(m, m');
    }
  }

  lemma SameTop(m: Machine, m': Machine)
    requires m'.slots == m.slots && m'.best == m.best
    ensures Topped(m') == Topped(m)
  {
  }

  lemma ConsumedMore(pool: seq<Hit>, picks: seq<nat>, p: nat)
    ensures Consume(Consumed(pool, picks), p) == Consumed(pool, picks + [p])
  {
  }

  lemma Emits(job: Job, m: Machine)
    requires Sound(job) && m.phase.Emit? && m.phase.r < job.k == |m.out|
    requires Rounds(job, m, m.phase.r) && Topped(m)
    ensures var m' := Act(job, m, 0); |m'.slots| == |m.slots| && |m'.out| == |m.out| && m'.best == m.best
    ensures Rounds(job, Act(job, m, 0).(arrived := m.arrived + {0}), m.phase.r + 1)
  {
    hide Chosen, Round, Topped, Pool, Complete;
    var pool, r, c := Whole(job), m.phase.r, CandAt(m, 0);
    var h := Hit(c.score, Doc(m.slots, c.slot));
    PoolComplete(job.scores, job.k, job.threads);
    EmitsRound(job, m, c);
    ChosenMore(pool, m.picks, m.out[..r], c.slot, h);
    ConsumedMore(pool, m.picks, c.slot);
    assert Put(m.out, r, h)[..r + 1] == m.out[..r] + [h];
  }

  lemma EmitsRound(job: Job, m: Machine, c: Cand)
    requires Scores(job.scores) && Complete(Whole(job), job.scores, job.k)
    requires m.slots == Consumed(Whole(job), m.picks) && Topped(m) && c == CandAt(m, 0)
    ensures Round(Whole(job), m.picks, c.slot, Hit(c.score, Doc(m.slots, c.slot)))
  {
    hide Pool, Scores;
    var pool := Whole(job);
    forall q: nat | Live(pool, m.picks, q) ensures m.slots[q] == pool[q] && pool[q].score > SENTINEL {
      LiveScore(pool, job.scores, q);
    }
    if c.score > SENTINEL {
      VacantScore(pool, job.scores, c.slot);
      assert c.slot !in m.picks;
    }
  }

  lemma LiveScore(pool: seq<Hit>, scores: seq<real>, q: nat)
    requires Scores(scores) && AllHonest(scores, pool) && q < |pool| && pool[q].doc != NO_DOC
    ensures pool[q].score > SENTINEL
  {
    assert Honest(scores, pool[q]);
  }

  lemma VacantScore(pool: seq<Hit>, scores: seq<real>, q: nat)
    requires AllHonest(scores, pool) && q < |pool|
    ensures pool[q].doc == NO_DOC ==> pool[q].score == SENTINEL
  {
    assert Honest(scores, pool[q]);
  }

  lemma EmitEnds(job: Job, m: Machine, r: nat)
    requires Sound(job) && Emitting(job, m, r) && Everyone(job, m.arrived)
    ensures InPhase(job, m.(phase := Next(job, Emit(r)), arrived := {}))
  {
    hide Rounds, Scores;
    SameRounds(job, m, m.(phase := Next(job, Emit(r)), arrived := {}), r + 1);
  }

  // ----- every step of every run -------------------------------------------------------------------------

  lemma Acts(job: Job, m: Machine, t: nat)
    requires Sound(job) && Inv(job, m) && CanStep(job, m, t)
    ensures Acted(job, m, t)
  {
    hide Acted, Shape, Loading, Scanning, Reducing, Emitting, Act, Sound;
    match m.phase
    case Load => LoadActs(job, m, t);
    case Scan(r) => ScanActs(job, m, t);
    case Reduce(r, step) => ReduceActs(job, m, t);
    case Emit(r) => EmitActs(job, m, t);
    case Done =>
  }

  lemma BarrierOpens(job: Job, m: Machine)
    requires Sound(job) && |m.slots| == Span(job.k, job.threads) && |m.best| == job.threads && |m.out| == job.k
    requires InPhase(job, m) && Everyone(job, m.arrived) && m.phase != Done
    ensures InPhase(job, m.(phase := Next(job, m.phase), arrived := {}))
  {
    hide Sound, Loading, Reducing, Emitting, Everyone, Rounds, Scanned;
    match m.phase
    case Load =>
      LoadEnds(job, m);
      SameRounds(job, m.(arrived := {}), m.(phase := Scan(0), arrived := {}), 0);
    case Scan(r) => ScanEnds(job, m, r);
    case Reduce(r, step) => ReduceEnds(job, m, r, step);
    case Emit(r) => EmitEnds(job, m, r);
    case Done =>
  }

  lemma StepInv(job: Job, m: Machine, t: nat)
    requires Sound(job) && Inv(job, m) && CanStep(job, m, t)
    ensures Inv(job, Step(job, m, t))
  {
    hide InPhase, Act, Sound;
    Acts(job, m, t);
    Nobody(job);
    if Everyone(job, m.arrived + {t}) {
      SamePhase(job, m, t);
      BarrierOpens(job, Act(job, m, t).(arrived := m.arrived + {t}));
    }
  }

  lemma SamePhase(job: Job, m: Machine, t: nat)
    ensures Act(job, m, t).phase == m.phase
  {
  }

  lemma Nobody(job: Job)
    requires Sound(job)
    ensures !Everyone(job, {})
  {
    var none: set<nat> := {};
    assert 0 < job.threads && 0 !in none;
  }

  lemma {:induction false} RunInv(job: Job, run: seq<Machine>, i: nat)
    requires Sound(job) && IsRun(job, run) && i < |run|
    ensures Inv(job, run[i])
    decreases i
  {
    hide Inv, Step, CanStep, Starts, Sound;
    if i == 0 {
      StartInv(job, run[0]);
    } else {
      RunInv(job, run, i - 1);
      assert Moves(job, run[i - 1], run[i - 1 + 1]);
      var t :| CanStep(job, run[i - 1], t) && run[i] == Step(job, run[i - 1], t);
      StepInv(job, run[i - 1], t);
    }
  }

  // However the threads of a phase are ordered, the pairs the host keeps are the k
  // best documents, best first, exactly when there are k documents or none.
  lemma TopKExact(job: Job, run: seq<Machine>)
    requires Sound(job) && IsRun(job, run) && run[|run| - 1].phase == Done
    ensures IsTopK(job.scores, job.k, Downloaded(run[|run| - 1].out)) <==> job.k <= |job.scores| || job.scores == []
  {
    hide Chosen, Complete, Pool, IsTopK, Downloaded, Starts, Moves;
    var m := run[|run| - 1];
    RunInv(job, run, |run| - 1);
    assert m.out[..job.k] == m.out;
    PoolComplete(job.scores, job.k, job.threads);
    ChosenExact(Whole(job), job.scores, job.k, m.picks, m.out);
  }

  // One document asked for two: the host keeps it twice, the second time without a score.
  const ONE_DOCUMENT := Job([5.0], 2, 1)

  lemma OnePool()
    ensures Whole(ONE_DOCUMENT) == [Hit(5.0, 0), Hit(SENTINEL, NO_DOC)]
  {
    var none := Empty(2);
    assert Insert(none[..1], Hit(5.0, 0)) == [Hit(5.0, 0), Hit(SENTINEL, NO_DOC)];
    assert Local([5.0], 2, 0, 1) == Offer(none, Hit(5.0, 0));
    assert Pool([5.0], 2, 1, 1) == Pool([5.0], 2, 1, 0) + Local([5.0], 2, 0, 1);
  }

  lemma OneDocument(run: seq<Machine>)
    requires IsRun(ONE_DOCUMENT, run) && run[|run| - 1].phase == Done
    ensures Downloaded(run[|run| - 1].out) == [Hit(5.0, 0), Hit(SENTINEL, 0)]
    ensures !IsTopK([5.0], 2, Downloaded(run[|run| - 1].out))
  {
    hide Local, Pool, Starts, Moves, IsTopK;
    var m := run[|run| - 1];
    RunInv(ONE_DOCUMENT, run, |run| - 1);
    TopKExact(ONE_DOCUMENT, run);
    OnePool();
    var pool := Whole(ONE_DOCUMENT);
    assert m.out[..2] == m.out;
    assert Round(pool, m.picks[..0], m.picks[0], m.out[0]) && Round(pool, m.picks[..1], m.picks[1], m.out[1]);
    assert Live(pool, m.picks[..0], 0) && pool[1].doc == NO_DOC;
    assert m.picks[..1] == [0];
    AllDownloaded(m.out);
  }

  // ----- the barriers let everybody through -----------------------------------------------------------------

  function Levels(n: nat): nat { if n / 2 == 0 then 0 else 1 + Levels(n / 2) }

  // Phases after this one.
  function Later(job: Job, ph: Phase): int {
    var round := 2 + Levels(job.threads);
    match ph
    case Load => Span(round, job.k)
    case Scan(r) => if r < job.k then Span(round, job.k - 1 - r) + Levels(job.threads) + 1 else 0
    case Reduce(r, step) => if r < job.k then Span(round, job.k - 1 - r) + Levels(step) + 1 else 0
    case Emit(r) => if r < job.k then Span(round, job.k - 1 - r) else 0
    case Done => -1
  }

  ghost predicate Waiting(job: Job, m: Machine) {
    match m.phase
    case Load => true
    case Scan(r) => r < job.k
    case Reduce(r, _) => r < job.k
    case Emit(r) => r < job.k
    case Done => false
  }

  lemma NextSooner(job: Job, m: Machine)
    requires Sound(job) && Waiting(job, m)
    ensures Later(job, Next(job, m.phase)) == Later(job, m.phase) - 1 >= -1
  {
  }

  // Steps left: the phases to come and the threads this barrier still waits for.
  ghost function Left(job: Job, m: Machine): int {
    Span(job.threads, if Later(job, m.phase) >= 0 then Later(job, m.phase) else 0) +
    (if m.phase == Done then 0 else |Below(job.threads) - m.arrived|)
  }

  ghost function Below(n: nat): (s: set<nat>)
    ensures forall t: nat :: t in s <==> t < n
  {
    if n == 0 then {} else Below(n - 1) + {n - 1}
  }

  lemma BelowNext(n: nat)
    ensures if n == 0 then Below(n) == {} else n - 1 !in Below(n - 1) && Below(n) == Below(n - 1) + {n - 1}
  {
  }

  lemma {:induction false} BelowSize(n: nat)
    ensures |Below(n)| == n
  {
    hide Below;
    BelowNext(n);
    if n > 0 {
      BelowSize(n - 1);
    }
  }

  // Until the block is done some thread can step, and every step leaves fewer to take.
  lemma Progress(job: Job, m: Machine, t: nat)
    requires Sound(job) && Inv(job, m)
    ensures m.phase != Done ==> exists u :: CanStep(job, m, u)
    ensures CanStep(job, m, t) ==> 0 <= Left(job, Step(job, m, t)) < Left(job, m)
  {
    hide Rounds, Scanned, Points, Covered, Act, Later, Levels, Scores, PowerOfTwo, Next;
    if m.phase != Done {
      var u: nat :| u < job.threads && u !in m.arrived;
      assert CanStep(job, m, u);
    }
    if CanStep(job, m, t) {
      StepsLeft(job, m, t);
    }
  }

  lemma StepsLeft(job: Job, m: Machine, t: nat)
    requires Sound(job) && CanStep(job, m, t) && Waiting(job, m)
    ensures 0 <= Left(job, Step(job, m, t)) < Left(job, m)
  {
    hide Act, Later, Levels, Sound, Next;
    SamePhase(job, m, t);
    NextSooner(job, m);
    BelowSize(job.threads);
    assert Below(job.threads) - (m.arrived + {t}) == (Below(job.threads) - m.arrived) - {t};
    assert Below(job.threads) - {} == Below(job.threads);
    LaterDone(job, m.phase);
  }

  lemma LaterDone(job: Job, ph: Phase)
    ensures Later(job, ph) >= -1 && (Later(job, ph) == -1 <==> ph == Done)
    ensures Later(job, Next(job, ph)) >= -1 && (Later(job, Next(job, ph)) == -1 <==> Next(job, ph) == Done)
  {
  }

  lemma {:induction false} RunLeft(job: Job, run: seq<Machine>, i: nat)
    requires Sound(job) && IsRun(job, run) && i < |run|
    ensures i + Left(job, run[i]) <= Left(job, run[0]) && Left(job, run[i]) >= 0
    decreases i
  {
    hide Inv, Step, CanStep, Starts, Sound, Span, Later, Below;
    if i > 0 {
      RunLeft(job, run, i - 1);
      RunInv(job, run, i - 1);
      assert Moves(job, run[i - 1], run[i - 1 + 1]);
      var t :| CanStep(job, run[i - 1], t) && run[i] == Step(job, run[i - 1], t);
      Progress(job, run[i - 1], t);
    }
  }

  // Steps of a whole run: the threads, once for each phase.
  function Steps(job: Job): int { Span(job.threads, Span(2 + Levels(job.threads), job.k)) + job.threads }

  lemma StartLeft(job: Job, m: Machine)
    requires Starts(job, m)
    ensures Left(job, m) == Steps(job)
  {
    hide Span;
    BelowSize(job.threads);
    assert Below(job.threads) - m.arrived == Below(job.threads);
  }

  // Every run ends: its length is bounded, and it can only stop where the block is done.
  lemma RunsEnd(job: Job, run: seq<Machine>)
    requires Sound(job) && IsRun(job, run)
    ensures |run| <= Steps(job) + 1
    ensures run[|run| - 1].phase != Done ==> exists m' :: IsRun(job, run + [m'])
  {
    hide Inv, Step, CanStep, Starts, Sound, Left, Steps;
    RunLeft(job, run, |run| - 1);
    StartLeft(job, run[0]);
    var last := run[|run| - 1];
    if last.phase != Done {
      RunInv(job, run, |run| - 1);
      Progress(job, last, 0);
      var u :| CanStep(job, last, u);
      var m' := Step(job, last, u);
      assert Moves(job, last, m');
      var longer := run + [m'];
      forall i | 0 <= i < |longer| - 1 ensures Moves(job, longer[i], longer[i + 1]) {
        if i < |run| - 1 {
          assert longer[i] == run[i] && longer[i + 1] == run[i + 1];
        }
      }
      assert IsRun(job, longer);
    }
  }
}
