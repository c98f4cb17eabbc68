// The device stats pass returns: every step leaves less work, or leaves the same
// work and one fewer thread whose view of the gcd accumulator is out of date. A
// compare-and-swap that fails is of the second kind, so no thread can retry for
// ever without another one finishing.
module StatsProgress {
  import opened Wire
  import opened BinaryGcd
  import opened StatsPass
  import opened Machines
  import opened StatsMachine
  import opened StatsInvariant

  const ROUND := 1100

  function Weight(job: Job, pc: Pc): int {
    match pc
    case Load(i) => 10 + ROUND * (Size(job) - i)
    case Flag(i) => 10 + ROUND * (Size(job) - i) - 1
    case Sentinel(i) => 10 + ROUND * (Size(job) - i) - 2
    case Probe(i, _, k) => 10 + ROUND * (Size(job) - i) - 2 - k
    case Bump(i, _) => 10 + ROUND * (Size(job) - i) - 1026
    case Raise(i) => 10 + ROUND * (Size(job) - i) - 1027
    case MergeMin => 4
    case MergeMax => 3
    case ReadGcd => 2
    case Swap(_) => 1
    case Done => 0
  }

  function Work(job: Job, threads: seq<Thread>): int {
    if threads == [] then 0 else Work(job, threads[..|threads| - 1]) + Weight(job, threads[|threads| - 1].pc)
  }

  // Threads about to swap on an old value.
  function Behind(threads: seq<Thread>, current: nat): nat {
    if threads == [] then 0
    else Behind(threads[..|threads| - 1], current) + Late(threads[|threads| - 1].pc, current)
  }

  function Late(pc: Pc, current: nat): nat { if pc.Swap? && pc.cur != current then 1 else 0 }

  lemma {:induction false} WorkOfOne(job: Job, threads: seq<Thread>, t: nat, th: Thread)
    requires t < |threads|
    ensures Work(job, Put(threads, t, th)) == Work(job, threads) - Weight(job, threads[t].pc) + Weight(job, th.pc)
    decreases |threads|
  {
    hide Weight;
    var n := |threads| - 1;
    if t < n {
      WorkOfOne(job, threads[..n], t, th);
      assert Put(threads, t, th)[..n] == Put(threads[..n], t, th);
    } else {
      assert Put(threads, t, th)[..n] == threads[..n];
    }
  }

  lemma {:induction false} BehindOfOne(threads: seq<Thread>, t: nat, th: Thread, current: nat)
    requires t < |threads|
    ensures Behind(Put(threads, t, th), current) == Behind(threads, current) - Late(threads[t].pc, current) + Late(th.pc, current)
    decreases |threads|
  {
    hide Late;
    var n := |threads| - 1;
    if t < n {
      BehindOfOne(threads[..n], t, th, current);
      assert Put(threads, t, th)[..n] == Put(threads[..n], t, th);
    } else {
      assert Put(threads, t, th)[..n] == threads[..n];
    }
  }

  lemma WeightPositive(job: Job, m: Machine, t: nat)
    requires Sound(job) && Inv(job, m) && t < |m.threads|
    ensures Weight(job, m.threads[t].pc) >= 0
  {
    hide Owner, LocalOk, PathTaken, Distinct, EnteredOk, AccumsOk, BumpsApart, TableOk, CountOk, RangeOk, MergedOk;
    ThreadIs(job, m, t);
  }

  // Thread t alone moved, and has less to do unless its swap failed.
  ghost predicate Falls(job: Job, m: Machine, m': Machine, t: nat)
    requires t < |m.threads|
  {
    match m.threads[t].pc
    case Swap(cur) =>
      t < |m'.threads| && m'.threads == Put(m.threads, t, m'.threads[t]) &&
      (m'.threads[t].pc == Done
       || (cur != Current(m) && m'.threads[t].pc == Swap(Current(m)) && Current(m') == Current(m)))
    case pc =>
      t < |m'.threads| && m'.threads == Put(m.threads, t, m'.threads[t]) && Weight(job, m'.threads[t].pc) < Weight(job, pc)
  }

  lemma NextWeighs(job: Job, i: nat)
    requires Sound(job) && i < Size(job)
    ensures Weight(job, NextValue(job, i + job.threads)) < 10 + ROUND * (Size(job) - i) - 1027
  {
  }

  lemma ReadingFalls(job: Job, m: Machine, t: nat, past: nat, seen: bool)
    requires Sound(job) && CanStep(m, t) && PcOk(job, m, t, m.threads[t].pc)
    requires m.threads[t].pc.Load? || m.threads[t].pc.Flag? || m.threads[t].pc.Sentinel?
    ensures Falls(job, m, Step(job, m, t, past, seen), t)
  {
    hide Gcd, Wrap, Owner, PathTaken, InHalfRange, NextValue;
    NextWeighs(job, m.threads[t].pc.i);
  }

  lemma TableFalls(job: Job, m: Machine, t: nat, past: nat, seen: bool)
    requires Sound(job) && CanStep(m, t) && PcOk(job, m, t, m.threads[t].pc)
    requires m.threads[t].pc.Probe? || m.threads[t].pc.Bump? || m.threads[t].pc.Raise?
    ensures Falls(job, m, Step(job, m, t, past, seen), t)
  {
    hide Gcd, Wrap, Owner, PathTaken, InHalfRange, NextValue;
    NextWeighs(job, m.threads[t].pc.i);
  }

  lemma MergingFalls(job: Job, m: Machine, t: nat, past: nat, seen: bool)
    requires CanStep(m, t)
    requires m.threads[t].pc.MergeMin? || m.threads[t].pc.MergeMax? || m.threads[t].pc.ReadGcd? || m.threads[t].pc.Swap?
    ensures Falls(job, m, Step(job, m, t, past, seen), t)
  {
    hide Gcd, Wrap;
  }

  lemma WeightFalls(job: Job, m: Machine, t: nat, past: nat, seen: bool)
    requires Sound(job) && Inv(job, m) && CanStep(m, t)
    ensures Falls(job, m, Step(job, m, t, past, seen), t)
  {
    hide Falls, Step, Sound, PcOk, LocalOk, TableOk, BumpsApart, CountOk, EnteredOk, RangeOk, MergedOk, AccumsOk;
    ThreadIs(job, m, t);
    match m.threads[t].pc
    case Load(_) => ReadingFalls(job, m, t, past, seen);
    case Flag(_) => ReadingFalls(job, m, t, past, seen);
    case Sentinel(_) => ReadingFalls(job, m, t, past, seen);
    case Probe(_, _, _) => TableFalls(job, m, t, past, seen);
    case Bump(_, _) => TableFalls(job, m, t, past, seen);
    case Raise(_) => TableFalls(job, m, t, past, seen);
    case _ => MergingFalls(job, m, t, past, seen);
  }

  // Lock freedom: the pair (work, threads behind) falls with every step.
  lemma Progress(job: Job, m: Machine, t: nat, past: nat, seen: bool)
    requires Sound(job) && Inv(job, m) && CanStep(m, t)
    ensures var m' := Step(job, m, t, past, seen);
            Work(job, m'.threads) < Work(job, m.threads)
            || (Work(job, m'.threads) == Work(job, m.threads)
                && Behind(m'.threads, Current(m')) < Behind(m.threads, Current(m)))
  {
    hide Step, Inv, Work, Behind, Sound, Current;
    var m' := Step(job, m, t, past, seen);
    WeightFalls(job, m, t, past, seen);
    WorkOfOne(job, m.threads, t, m'.threads[t]);
    BehindOfOne(m.threads, t, m'.threads[t], Current(m));
  }

  lemma WorkBounded(job: Job, m: Machine, n: nat)
    requires Sound(job) && Inv(job, m) && n <= |m.threads|
    ensures Work(job, m.threads[..n]) >= 0
  {
    hide Inv, Weight, Sound;
    if n > 0 {
      assert m.threads[..n][..n - 1] == m.threads[..n - 1];
      WorkBounded(job, m, n - 1);
      WeightPositive(job, m, n - 1);
    }
  }

  // ----- whole runs ----------------------------------------------------------------------

  // The pair as one number: work counts for more than all threads together.
  function Measure(work: int, behind: nat, n: nat): int { work * (n + 1) + behind }

  lemma MeasureFalls(w': int, b': nat, w: int, b: nat, n: nat)
    requires b' <= n && (w' < w || (w' == w && b' < b))
    ensures Measure(w', b', n) < Measure(w, b, n)
  {
    if w' < w {
      assert (w - 1 - w') * (n + 1) >= 0;
      assert (w - 1 - w') * (n + 1) == w * (n + 1) - w' * (n + 1) - (n + 1);
    }
  }

  lemma MeasurePositive(w: int, b: nat, n: nat)
    requires w >= 0
    ensures Measure(w, b, n) >= 0
  {
  }

  // Steps a machine can still take.
  function Left(job: Job, m: Machine): int { Measure(Work(job, m.threads), Behind(m.threads, Current(m)), job.threads) }

  lemma {:induction false} BehindBounded(threads: seq<Thread>, current: nat)
    ensures Behind(threads, current) <= |threads|
  {
    if threads != [] {
      BehindBounded(threads[..|threads| - 1], current);
    }
  }

  lemma LeftFalls(job: Job, m: Machine, m': Machine)
    requires Sound(job) && Inv(job, m) && Inv(job, m') && Moves(job, m, m')
    ensures 0 <= Left(job, m') < Left(job, m)
  {
    hide Step, Inv, Work, Behind, Sound, Current, Measure;
    var t: nat, past: nat, seen: bool :| CanStep(m, t) && m' == Step(job, m, t, past, seen);
    Progress(job, m, t, past, seen);
    BehindBounded(m'.threads, Current(m'));
    AllThreads(job, m');
    MeasureFalls(Work(job, m'.threads), Behind(m'.threads, Current(m')), Work(job, m.threads),
                 Behind(m.threads, Current(m)), job.threads);
    LeftPositive(job, m');
  }

  lemma AllThreads(job: Job, m: Machine)
    requires Inv(job, m)
    ensures |m.threads| == job.threads
  {
    hide Owner, LocalOk, PathTaken, Distinct, EnteredOk, AccumsOk, BumpsApart, TableOk, CountOk, RangeOk, MergedOk;
  }

  lemma LeftPositive(job: Job, m: Machine)
    requires Sound(job) && Inv(job, m)
    ensures Left(job, m) >= 0
  {
    hide Step, Inv, Work, Behind, Sound, Current, Measure;
    WorkBounded(job, m, |m.threads|);
    assert m.threads[..|m.threads|] == m.threads;
    MeasurePositive(Work(job, m.threads), Behind(m.threads, Current(m)), job.threads);
  }

  lemma {:induction false} RunLeft(job: Job, run: seq<Machine>, k: nat)
    requires Sound(job) && IsRun(job, run) && k < |run|
    ensures k + Left(job, run[k]) <= Left(job, Start(job)) && Left(job, run[k]) >= 0
    decreases k
  {
    hide Step, Inv, Left, Start, Sound, Moves;
    RunInv(job, run, k);
    LeftPositive(job, run[k]);
    if k > 0 {
      RunLeft(job, run, k - 1);
      RunInv(job, run, k - 1);
      assert Moves(job, run[k - 1], run[k - 1 + 1]);
      LeftFalls(job, run[k - 1], run[k]);
    }
  }

  // Every run ends: its length is bounded, and it can only stop where all threads
  // have returned.
  lemma RunsEnd(job: Job, run: seq<Machine>)
    requires Sound(job) && IsRun(job, run)
    ensures |run| <= Left(job, Start(job)) + 1
    ensures !Finished(run[|run| - 1]) ==> exists m' :: IsRun(job, run + [m'])
  {
    hide Step, Left, Start, Sound;
    RunLeft(job, run, |run| - 1);
    var last := run[|run| - 1];
    if !Finished(last) {
      var t: nat :| t < |last.threads| && !last.threads[t].pc.Done?;
      var m' := Step(job, last, t, 0, false);
      assert CanStep(last, t) && Moves(job, last, m');
      var longer := run + [m'];
      forall k | 0 <= k < |longer| - 1 ensures Moves(job, longer[k], longer[k + 1]) {
        if k < |run| - 1 {
          assert longer[k] == run[k] && longer[k + 1] == run[k + 1];
        }
      }
      assert IsRun(job, longer);
    }
  }
}
