// The device stats pass: threads stride over the column, keep a local min, max
// and gcd, enter distinct values in a table by compare-and-swap, and merge. The
// overflow flag and the gcd accumulator are read without synchronization, so a
// read may return any value the cell has held.
module StatsMachine {
  import opened Wire
  import opened BinaryGcd
  import opened StatsPass
  import opened Machines

  const TABLE_SLOTS := 1024
  const EMPTY: i64 := -TWO_63
  const TOP: i64 := TWO_63 - 1

  datatype Job = Job(values: seq<i64>, threads: nat, home: i64 -> nat)

  ghost predicate Sound(job: Job) {
    |job.values| > 0 && job.threads > 0 && forall v :: job.home(v) < TABLE_SLOTS
  }

  datatype Pc =
    | Load(i: nat)                   // v = values[i], the locals, *out_of_range = 1
    | Flag(i: nat)                   // if (!*overflow)
    | Sentinel(i: nat)               // *has_sentinel = 1
    | Probe(i: nat, slot: nat, k: nat) // atomicCAS(&table[slot], SENTINEL, v)
    | Bump(i: nat, slot: nat)        // atomicAdd(table_count, 1)
    | Raise(i: nat)                  // *overflow = 1
    | MergeMin | MergeMax            // atomicMin, atomicMax
    | ReadGcd                        // cur = *gcd_accum
    | Swap(cur: nat)                 // atomicCAS(gcd_accum, cur, merged)
    | Done

  datatype Thread = Thread(pc: Pc, min: i64, max: i64, gcd: nat)

  // `accums` is every value the accumulator has held, the last one current;
  // `bumped` logs the slots in the order they were counted.
  datatype Machine = Machine(threads: seq<Thread>, outMin: i64, outMax: i64, accums: seq<nat>, outOfRange: bool,
                             table: seq<i64>, count: nat, hasSentinel: bool, overflow: bool, bumped: seq<nat>)

  function Size(job: Job): nat { |job.values| }

  function ValueAt(job: Job, i: nat): i64 { if i < |job.values| then job.values[i] else 0 }

  function First(job: Job): i64 { ValueAt(job, 0) }

  // The thread that handles value j.
  function Owner(job: Job, j: nat): nat
    decreases j
  {
    if job.threads == 0 || j < job.threads then j else Owner(job, j - job.threads)
  }

  lemma {:induction false} OwnerGap(job: Job, i: nat, j: nat)
    requires job.threads > 0 && i <= j < i + job.threads && Owner(job, i) == Owner(job, j)
    ensures i == j
    decreases j
  {
    OwnerNext(job, j);
    if i >= job.threads {
      OwnerGap(job, i - job.threads, j - job.threads);
    }
  }

  lemma OwnerNext(job: Job, j: nat)
    ensures job.threads <= j < job.threads + job.threads ==> Owner(job, j) == j - job.threads
  {
  }

  lemma {:induction false} OwnerBound(job: Job, j: nat)
    requires job.threads > 0
    ensures Owner(job, j) < job.threads && Owner(job, j) <= j
    decreases j
  {
    if j >= job.threads {
      OwnerBound(job, j - job.threads);
    }
  }

  function NextValue(job: Job, i: nat): Pc { if i < Size(job) then Load(i) else MergeMin }

  function Start(job: Job): Machine {
    Machine(seq(job.threads, t requires 0 <= t => Thread(NextValue(job, t), TOP, EMPTY, 0)), TOP, EMPTY, [0], false,
            seq<i64>(TABLE_SLOTS, s => EMPTY), 0, false, false, [])
  }

  predicate CanStep(m: Machine, t: nat) { t < |m.threads| && !m.threads[t].pc.Done? }

  predicate Finished(m: Machine) { forall t :: 0 <= t < |m.threads| ==> m.threads[t].pc.Done? }

  function Current(m: Machine): nat { if m.accums == [] then 0 else m.accums[|m.accums| - 1] }

  function Become(m: Machine, t: nat, th: Thread): Machine { m.(threads := Put(m.threads, t, th)) }

  function At(m: Machine, t: nat, pc: Pc): Machine
    requires t < |m.threads|
  {
    Become(m, t, m.threads[t].(pc := pc))
  }

  function Locals(job: Job, th: Thread, i: nat): (r: Thread)
    ensures r.pc == Flag(i)
  {
    var v := ValueAt(job, i);
    Thread(Flag(i), if v < th.min then v else th.min, if v > th.max then v else th.max,
           if InHalfRange(v) then Gcd(th.gcd, Abs(Wrap(v - First(job)))) else th.gcd)
  }

  function NextSlot(slot: nat): nat { if slot + 1 < TABLE_SLOTS then slot + 1 else 0 }

  function Slot(m: Machine, slot: nat): i64 { if slot < |m.table| then m.table[slot] else EMPTY }

  // One step of thread t. A stale read sees `past`, an earlier accumulator; a
  // flag that is up may still be read as down unless `seen` says so.
  function Step(job: Job, m: Machine, t: nat, past: nat, seen: bool): Machine
    requires CanStep(m, t)
  {
    var th := m.threads[t];
    match th.pc
    case Load(i) =>
      Become(m.(outOfRange := m.outOfRange || !InHalfRange(ValueAt(job, i))), t, Locals(job, th, i))
    case Flag(i) =>
      if m.overflow && seen then At(m, t, NextValue(job, i + job.threads))
      else if ValueAt(job, i) == EMPTY then At(m, t, Sentinel(i))
      else At(m, t, Probe(i, job.home(ValueAt(job, i)), 0))
    case Sentinel(i) => At(m.(hasSentinel := true), t, NextValue(job, i + job.threads))
    case Probe(i, slot, k) =>
      if Slot(m, slot) == EMPTY then At(m.(table := Put(m.table, slot, ValueAt(job, i))), t, Bump(i, slot))
      else if Slot(m, slot) == ValueAt(job, i) then At(m, t, NextValue(job, i + job.threads))
      else if k + 1 == TABLE_SLOTS then At(m, t, Raise(i))
      else At(m, t, Probe(i, NextSlot(slot), k + 1))
    case Bump(i, slot) =>
      At(m.(count := m.count + 1, bumped := m.bumped + [slot]), t,
         if m.count + 1 > MAX_TABLE then Raise(i) else NextValue(job, i + job.threads))
    case Raise(i) => At(m.(overflow := true), t, NextValue(job, i + job.threads))
    case MergeMin => At(m.(outMin := if th.min < m.outMin then th.min else m.outMin), t, MergeMax)
    case MergeMax => At(m.(outMax := if th.max > m.outMax then th.max else m.outMax), t, ReadGcd)
    case ReadGcd => At(m, t, Swap(if past < |m.accums| then m.accums[past] else Current(m)))
    case Swap(cur) =>
      var merged := Gcd(cur, th.gcd);
      if merged == cur then At(m, t, Done)
      else if Current(m) == cur then At(m.(accums := m.accums + [merged]), t, Done)
      else At(m, t, Swap(Current(m)))
  }

  ghost predicate Moves(job: Job, m: Machine, m': Machine) {
    exists t: nat, past: nat, seen: bool :: CanStep(m, t) && m' == Step(job, m, t, past, seen)
  }

  ghost predicate IsRun(job: Job, run: seq<Machine>) {
    && run != [] && run[0] == Start(job)
    && forall k :: 0 <= k < |run| - 1 ==> Moves(job, run[k], run[k + 1])
  }

  // What the host makes of the downloaded cells.
  function Kept(table: seq<i64>): seq<i64> {
    if table == [] then []
    else Kept(table[..|table| - 1]) + if table[|table| - 1] == EMPTY then [] else [table[|table| - 1]]
  }

  method HostStats(outMin: i64, outMax: i64, accum: nat, outOfRange: bool, table: seq<i64>, hasSentinel: bool, overflow: bool)
    returns (s: NumericStats)
    requires accum < TWO_63 || outOfRange
    ensures s == ResultOf(outMin, outMax, accum, outOfRange, table, hasSentinel, overflow)
  {
    var gcd: i64 := if outOfRange then 1 else accum;
    if overflow {
      return NumericStats(outMin, outMax, gcd, None);
    }
    var t: seq<i64> := [];
    for k := 0 to |table|
      invariant t == Kept(table[..k])
    {
      assert table[..k + 1][..k] == table[..k];
      if table[k] != EMPTY {
        t := t + [table[k]];
      }
    }
    assert table[..|table|] == table;
    if hasSentinel {
      t := t + [EMPTY];
    }
    assert t == Listed(table, hasSentinel);
    return NumericStats(outMin, outMax, gcd, if |t| > MAX_TABLE then None else Some(SortedSeq(Distinct(t))));
  }

  function Listed(table: seq<i64>, hasSentinel: bool): seq<i64> { Kept(table) + if hasSentinel then [EMPTY] else [] }

  ghost function ResultOf(outMin: i64, outMax: i64, accum: nat, outOfRange: bool, table: seq<i64>, hasSentinel: bool,
                          overflow: bool): NumericStats
    requires accum < TWO_63 || outOfRange
  {
    var t := Listed(table, hasSentinel);
    NumericStats(outMin, outMax, if outOfRange then 1 else accum,
                 if overflow || |t| > MAX_TABLE then None else Some(SortedSeq(Distinct(t))))
  }
}
