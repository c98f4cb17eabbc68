// What every state of the device stats pass keeps, and why the cells at the end
// hold the statistics of the column whatever the interleaving: the accumulator
// only moves to divisors of itself and stays a multiple of the true gcd, a
// distinct value owns one slot, and the overflow flag goes up only when there are
// too many of them.
module StatsInvariant {
  import opened Wire
  import opened BinaryGcd
  import opened StatsPass
  import opened Machines
  import opened StatsMachine

  // ----- where a thread stands -----------------------------------------------------------

  // The value in hand; past the column once merging.
  function Position(job: Job, pc: Pc): nat {
    match pc
    case Load(i) => i
    case Flag(i) => i
    case Sentinel(i) => i
    case Probe(i, _, _) => i
    case Bump(i, _) => i
    case Raise(i) => i
    case _ => Size(job)
  }

  // The thread's locals take value j in.
  predicate Taken(job: Job, pc: Pc, j: nat) {
    j < Position(job, pc) || (j == Position(job, pc) && !pc.Load?)
  }

  // Value j is done with the table.
  predicate Entered(job: Job, pc: Pc, j: nat) {
    j < Position(job, pc) || (j == Position(job, pc) && pc.Bump?)
  }

  function Rank(pc: Pc): nat {
    match pc
    case MergeMin => 1
    case MergeMax => 2
    case ReadGcd => 3
    case Swap(_) => 3
    case Done => 4
    case _ => 0
  }

  // ----- the table ----------------------------------------------------------------------------

  predicate TakenByOther(table: seq<i64>, slot: nat, v: i64) {
    slot < |table| && table[slot] != EMPTY && table[slot] != v
  }

  ghost predicate PathTaken(job: Job, table: seq<i64>, v: i64, slot: nat) {
    forall q :: 0 <= q < TABLE_SLOTS && Dist(TABLE_SLOTS, job.home(v), q) < Dist(TABLE_SLOTS, job.home(v), slot) ==> TakenByOther(table, q, v)
  }

  ghost predicate TableOk(job: Job, table: seq<i64>) {
    && |table| == TABLE_SLOTS
    && forall s :: 0 <= s < TABLE_SLOTS && table[s] != EMPTY ==> table[s] in job.values && PathTaken(job, table, table[s], s)
  }

  lemma NotBefore(job: Job, table: seq<i64>, s: nat, q: nat, v: i64)
    requires |table| == TABLE_SLOTS && PathTaken(job, table, v, q) && s < TABLE_SLOTS && table[s] == v
    ensures Dist(TABLE_SLOTS, job.home(v), s) >= Dist(TABLE_SLOTS, job.home(v), q)
  {
    assert Dist(TABLE_SLOTS, job.home(v), s) < Dist(TABLE_SLOTS, job.home(v), q) ==> TakenByOther(table, s, v);
  }

  lemma OneSlot(job: Job, table: seq<i64>, s: nat, q: nat)
    requires Sound(job) && TableOk(job, table) && s < TABLE_SLOTS && q < TABLE_SLOTS && table[s] == table[q] != EMPTY
    ensures s == q
  {
    hide PathTaken;
    assert job.home(table[s]) < TABLE_SLOTS;
    NotBefore(job, table, s, q, table[s]);
    NotBefore(job, table, q, s, table[s]);
  }

  ghost predicate Grows(table: seq<i64>, table': seq<i64>) {
    |table| == |table'| && forall s :: 0 <= s < |table| && table[s] != EMPTY ==> table'[s] == table[s]
  }

  lemma PathKept(job: Job, table: seq<i64>, table': seq<i64>, v: i64, slot: nat)
    requires Grows(table, table') && PathTaken(job, table, v, slot)
    ensures PathTaken(job, table', v, slot)
  {
    hide Dist;
    forall q | 0 <= q < TABLE_SLOTS && Dist(TABLE_SLOTS, job.home(v), q) < Dist(TABLE_SLOTS, job.home(v), slot) ensures TakenByOther(table', q, v) {
      assert TakenByOther(table, q, v);
    }
  }

  lemma FillSlot(job: Job, table: seq<i64>, slot: nat, v: i64)
    requires TableOk(job, table) && slot < TABLE_SLOTS && table[slot] == EMPTY && v in job.values && PathTaken(job, table, v, slot)
    ensures TableOk(job, Put(table, slot, v)) && Grows(table, Put(table, slot, v))
  {
    hide PathTaken;
    var table' := Put(table, slot, v);
    forall s | 0 <= s < TABLE_SLOTS && table'[s] != EMPTY
      ensures table'[s] in job.values && PathTaken(job, table', table'[s], s)
    {
      PathKept(job, table, table', table'[s], s);
    }
  }

  lemma PassSlot(job: Job, table: seq<i64>, v: i64, slot: nat)
    requires job.home(v) < TABLE_SLOTS && slot < TABLE_SLOTS && Dist(TABLE_SLOTS, job.home(v), slot) < TABLE_SLOTS - 1
    requires PathTaken(job, table, v, slot) && TakenByOther(table, slot, v)
    ensures PathTaken(job, table, v, NextSlot(slot)) && NextSlot(slot) < TABLE_SLOTS
    ensures Dist(TABLE_SLOTS, job.home(v), NextSlot(slot)) == Dist(TABLE_SLOTS, job.home(v), slot) + 1
  {
    hide TakenByOther;
    var home := job.home(v);
    forall q | 0 <= q < TABLE_SLOTS && Dist(TABLE_SLOTS, home, q) < Dist(TABLE_SLOTS, home, NextSlot(slot)) ensures TakenByOther(table, q, v) {
      if Dist(TABLE_SLOTS, home, q) >= Dist(TABLE_SLOTS, home, slot) {
        assert q == slot;
      }
    }
  }

  // ----- counting distinct values ----------------------------------------------------------------

  lemma {:induction false} DistinctWithin(s: seq<i64>, within: set<i64>)
    requires (forall i, j :: 0 <= i < j < |s| ==> s[i] != s[j]) && forall i :: 0 <= i < |s| ==> s[i] in within
    ensures |s| <= |within|
    decreases |s|
  {
    if s != [] {
      var n := |s| - 1;
      DistinctWithin(s[..n], within - {s[n]});
    }
  }

  // Slots that hold values are no more than the distinct values.
  lemma SlotsWithin(job: Job, table: seq<i64>, slots: seq<nat>)
    requires Sound(job) && TableOk(job, table) && NoDuplicates(slots)
    requires forall k :: 0 <= k < |slots| ==> slots[k] < TABLE_SLOTS && table[slots[k]] != EMPTY
    ensures |slots| <= |Distinct(job.values)|
  {
    hide PathTaken;
    var owners := seq<i64>(|slots|, k requires 0 <= k < |slots| => table[slots[k]]);
    forall i, j | 0 <= i < j < |slots| ensures owners[i] != owners[j] {
      if owners[i] == owners[j] {
        OneSlot(job, table, slots[i], slots[j]);
      }
    }
    DistinctWithin(owners, Distinct(job.values));
  }

  // A probe that passed every slot met a full table.
  lemma FullTable(job: Job, table: seq<i64>, v: i64, slot: nat)
    requires Sound(job) && TableOk(job, table) && PathTaken(job, table, v, slot) && slot < TABLE_SLOTS
    requires TakenByOther(table, slot, v) && Dist(TABLE_SLOTS, job.home(v), slot) == TABLE_SLOTS - 1
    ensures |Distinct(job.values)| > MAX_TABLE
  {
    var slots := seq(TABLE_SLOTS, s requires 0 <= s => s);
    forall s | 0 <= s < TABLE_SLOTS ensures table[s] != EMPTY {
      assert job.home(v) < TABLE_SLOTS;
      if s != slot {
        assert TakenByOther(table, s, v);
      }
    }
    SlotsWithin(job, table, slots);
  }

  // ----- the invariant ------------------------------------------------------------------------------

  ghost function TrueGcd(job: Job): nat { GcdAll(Deltas(job.values, First(job))) }

  function Delta(job: Job, j: nat): nat { Abs(ValueAt(job, j) - First(job)) }

  ghost predicate PcOk(job: Job, m: Machine, t: nat, pc: Pc) {
    && (Rank(pc) == 0 ==> Position(job, pc) < Size(job) && Owner(job, Position(job, pc)) == t)
    && match pc
       case Probe(i, slot, k) =>
         var v := ValueAt(job, i);
         v != EMPTY && slot < TABLE_SLOTS && k < TABLE_SLOTS && Dist(TABLE_SLOTS, job.home(v), slot) == k && PathTaken(job, m.table, v, slot)
       case Sentinel(i) => ValueAt(job, i) == EMPTY
       case Bump(i, slot) => slot < |m.table| && m.table[slot] == ValueAt(job, i) != EMPTY && slot !in m.bumped
       case Raise(_) => |Distinct(job.values)| > MAX_TABLE
       case Swap(cur) => cur in m.accums
       case _ => true
  }

  ghost predicate LocalOk(job: Job, t: nat, th: Thread) {
    && (th.min == TOP || th.min in job.values) && (th.max == EMPTY || th.max in job.values)
    && (AllInHalfRange(job.values) ==> Divides(TrueGcd(job), th.gcd))
    && forall j :: 0 <= j < Size(job) && Owner(job, j) == t && Taken(job, th.pc, j) ==> Covers(job, th, j)
  }

  ghost predicate Covers(job: Job, th: Thread, j: nat) {
    th.min <= ValueAt(job, j) <= th.max && (AllInHalfRange(job.values) ==> Divides(th.gcd, Delta(job, j)))
  }

  ghost predicate ThreadsOk(job: Job, m: Machine) {
    |m.threads| == job.threads &&
    forall t :: 0 <= t < |m.threads| ==> PcOk(job, m, t, m.threads[t].pc) && LocalOk(job, t, m.threads[t])
  }

  // Threads about to count hold different slots.
  ghost predicate BumpsApart(m: Machine) {
    forall t, s :: 0 <= t < s < |m.threads| && m.threads[t].pc.Bump? && m.threads[s].pc.Bump?
                   ==> m.threads[t].pc.slot != m.threads[s].pc.slot
  }

  ghost predicate CountOk(m: Machine) {
    && m.count == |m.bumped| && NoDuplicates(m.bumped)
    && forall k :: 0 <= k < |m.bumped| ==> m.bumped[k] < |m.table| && m.table[m.bumped[k]] != EMPTY
  }

  ghost predicate Found(m: Machine, v: i64) {
    m.overflow || (v == EMPTY && m.hasSentinel) || (v != EMPTY && v in m.table)
  }

  function PcOf(job: Job, m: Machine, j: nat): Pc {
    if Owner(job, j) < |m.threads| then m.threads[Owner(job, j)].pc else Load(0)
  }

  ghost predicate EnteredOk(job: Job, m: Machine) {
    && (forall j :: 0 <= j < Size(job) && Entered(job, PcOf(job, m, j), j) ==> Found(m, ValueAt(job, j)))
    && (m.overflow ==> |Distinct(job.values)| > MAX_TABLE)
    && (m.hasSentinel ==> EMPTY in job.values)
  }

  ghost predicate RangeOk(job: Job, m: Machine) {
    && (m.outOfRange ==> !AllInHalfRange(job.values))
    && forall j :: 0 <= j < Size(job) && Taken(job, PcOf(job, m, j), j) && !InHalfRange(ValueAt(job, j)) ==> m.outOfRange
  }

  ghost predicate MergedOk(job: Job, m: Machine) {
    && (m.outMin == TOP || m.outMin in job.values) && (m.outMax == EMPTY || m.outMax in job.values)
    && (forall t :: 0 <= t < |m.threads| && Rank(m.threads[t].pc) >= 2 ==> m.outMin <= m.threads[t].min)
    && (forall t :: 0 <= t < |m.threads| && Rank(m.threads[t].pc) >= 3 ==> m.threads[t].max <= m.outMax)
  }

  // The accumulator moves to divisors of itself, and stays a multiple of the gcd.
  ghost predicate AccumsOk(job: Job, m: Machine) {
    && m.accums != []
    && (forall a, b :: 0 <= a <= b < |m.accums| ==> Divides(m.accums[b], m.accums[a]))
    && (AllInHalfRange(job.values) ==> forall a :: 0 <= a < |m.accums| ==> Divides(TrueGcd(job), m.accums[a]))
    && (forall t :: 0 <= t < |m.threads| && m.threads[t].pc.Done? ==> Divides(Current(m), m.threads[t].gcd))
  }

  ghost predicate Inv(job: Job, m: Machine) {
    && ThreadsOk(job, m) && TableOk(job, m.table) && BumpsApart(m) && CountOk(m)
    && EnteredOk(job, m) && RangeOk(job, m) && MergedOk(job, m) && AccumsOk(job, m)
  }

  // ----- the start -----------------------------------------------------------------------------------

  lemma StartThread(job: Job, t: nat)
    requires Sound(job) && t < job.threads
    ensures Start(job).threads[t] == Thread(NextValue(job, t), TOP, EMPTY, 0)
    ensures PcOk(job, Start(job), t, Start(job).threads[t].pc) && LocalOk(job, t, Start(job).threads[t])
    ensures forall j :: 0 <= j < Size(job) && Owner(job, j) == t ==>
              !Taken(job, Start(job).threads[t].pc, j) && !Entered(job, Start(job).threads[t].pc, j)
  {
    hide TrueGcd, Covers, AllInHalfRange;
    assert Owner(job, t) == t;
    forall j | 0 <= j < Size(job) && Owner(job, j) == t
      ensures !Taken(job, NextValue(job, t), j) && !Entered(job, NextValue(job, t), j)
    {
      OwnerBound(job, j);
    }
  }

  lemma StartInv(job: Job)
    requires Sound(job)
    ensures Inv(job, Start(job))
  {
    hide TrueGcd, PcOk, LocalOk, Taken, Entered, AllInHalfRange, Owner, PathTaken, Distinct;
    var m := Start(job);
    forall t | 0 <= t < job.threads ensures PcOk(job, m, t, m.threads[t].pc) && LocalOk(job, t, m.threads[t]) {
      StartThread(job, t);
    }
    forall j | 0 <= j < Size(job) ensures !Taken(job, PcOf(job, m, j), j) && !Entered(job, PcOf(job, m, j), j) {
      OwnerBound(job, j);
      StartThread(job, Owner(job, j));
    }
    forall t | 0 <= t < job.threads ensures m.threads[t].pc == NextValue(job, t) {
      StartThread(job, t);
    }
    DividesSelf(0);
  }

  // ----- one step: shape, table, other threads ----------------------------------------------------------

  // What a step of thread t does, cell by cell: its own entry changes, and each cell at
  // most at the program counter that writes it.
  ghost predicate Frame(job: Job, m: Machine, m': Machine, t: nat) {
    match t < |m.threads|
    case false => false
    case true =>
      var th := m.threads[t];
      && |m'.threads| == |m.threads| && m'.threads == Put(m.threads, t, m'.threads[t])
      && (if th.pc.Load? then m'.threads[t] == Locals(job, th, th.pc.i) else m'.threads[t] == th.(pc := m'.threads[t].pc))
      && (m.overflow ==> m'.overflow) && (m.hasSentinel ==> m'.hasSentinel) && (m.outOfRange ==> m'.outOfRange)
      && m'.count == (if th.pc.Bump? then m.count + 1 else m.count)
      && m'.bumped == (if th.pc.Bump? then m.bumped + [th.pc.slot] else m.bumped)
      && m'.outMin == (if th.pc.MergeMin? && th.min < m.outMin then th.min else m.outMin)
      && m'.outMax == (if th.pc.MergeMax? && th.max > m.outMax then th.max else m.outMax)
      && m'.accums == (if Swaps(m, th) then m.accums + [Gcd(Current(m), th.gcd)] else m.accums)
  }

  // The compare-and-swap succeeds.
  predicate Swaps(m: Machine, th: Thread) { th.pc.Swap? && th.pc.cur == Current(m) && Gcd(th.pc.cur, th.gcd) != th.pc.cur }

  // Where thread t goes: past a merge only from that merge, to a claim only by taking a
  // free slot, and home only from a swap that made no difference or took place.
  ghost predicate Goes(m: Machine, m': Machine, t: nat) {
    match t < |m.threads| && t < |m'.threads|
    case false => false
    case true =>
      var th, pc' := m.threads[t], m'.threads[t].pc;
      match th.pc
      case MergeMin => pc' == MergeMax
      case MergeMax => pc' == ReadGcd
      case ReadGcd => pc'.Swap?
      case Swap(cur) => pc'.Swap? || (pc'.Done? && (Swaps(m, th) || Gcd(cur, th.gcd) == cur))
      case Probe(_, slot, _) => Rank(pc') <= 1 && (pc'.Bump? ==> pc'.slot == slot && Slot(m, slot) == EMPTY)
      case _ => Rank(pc') <= 1 && !pc'.Bump?
  }

  lemma RankNext(job: Job)
    ensures forall i :: Rank(NextValue(job, i)) <= 1 && !NextValue(job, i).Bump?
  {
  }

  lemma ReadingFrame(job: Job, m: Machine, t: nat, past: nat, seen: bool)
    requires CanStep(m, t) && (m.threads[t].pc.Load? || m.threads[t].pc.Flag? || m.threads[t].pc.Sentinel?)
    ensures Frame(job, m, Step(job, m, t, past, seen), t) && Goes(m, Step(job, m, t, past, seen), t)
  {
    hide Gcd, NextValue, InHalfRange, NextSlot, ValueAt, Current;
    RankNext(job);
  }

  lemma TableFrame(job: Job, m: Machine, t: nat, past: nat, seen: bool)
    requires CanStep(m, t) && (m.threads[t].pc.Probe? || m.threads[t].pc.Bump? || m.threads[t].pc.Raise?)
    ensures Frame(job, m, Step(job, m, t, past, seen), t) && Goes(m, Step(job, m, t, past, seen), t)
  {
    hide Gcd, NextValue, InHalfRange, NextSlot, Locals, ValueAt, Current, Slot;
    RankNext(job);
  }

  lemma EndsFrame(job: Job, m: Machine, t: nat, past: nat, seen: bool)
    requires CanStep(m, t) && (m.threads[t].pc.MergeMin? || m.threads[t].pc.MergeMax? || m.threads[t].pc.ReadGcd?)
    ensures Frame(job, m, Step(job, m, t, past, seen), t) && Goes(m, Step(job, m, t, past, seen), t)
  {
    hide Gcd, NextValue, InHalfRange, NextSlot, Locals, ValueAt, Current;
  }

  lemma SwapFrame(job: Job, m: Machine, t: nat, past: nat, seen: bool)
    requires CanStep(m, t) && m.threads[t].pc.Swap?
    ensures Frame(job, m, Step(job, m, t, past, seen), t) && Goes(m, Step(job, m, t, past, seen), t)
  {
    hide Gcd, NextValue, InHalfRange, NextSlot, Locals, ValueAt, Current;
  }

  lemma StepFrame(job: Job, m: Machine, t: nat, past: nat, seen: bool)
    requires CanStep(m, t)
    ensures Frame(job, m, Step(job, m, t, past, seen), t) && Goes(m, Step(job, m, t, past, seen), t)
  {
    hide Frame, Goes, Step;
    match m.threads[t].pc
    case Load(_) => ReadingFrame(job, m, t, past, seen);
    case Flag(_) => ReadingFrame(job, m, t, past, seen);
    case Sentinel(_) => ReadingFrame(job, m, t, past, seen);
    case Probe(_, _, _) => TableFrame(job, m, t, past, seen);
    case Bump(_, _) => TableFrame(job, m, t, past, seen);
    case Raise(_) => TableFrame(job, m, t, past, seen);
    case Swap(_) => SwapFrame(job, m, t, past, seen);
    case _ => EndsFrame(job, m, t, past, seen);
  }

  lemma StepShape(job: Job, m: Machine, t: nat, past: nat, seen: bool)
    requires CanStep(m, t)
    ensures var m' := Step(job, m, t, past, seen);
            |m'.threads| == |m.threads| && forall s :: 0 <= s < |m.threads| && s != t ==> m'.threads[s] == m.threads[s]
  {
    hide Step, Goes, Locals, Gcd;
    StepFrame(job, m, t, past, seen);
  }

  lemma ThreadIs(job: Job, m: Machine, t: nat)
    requires ThreadsOk(job, m) && t < |m.threads|
    ensures PcOk(job, m, t, m.threads[t].pc) && LocalOk(job, t, m.threads[t])
  {
    hide PcOk, LocalOk;
  }

  lemma TableStep(job: Job, m: Machine, t: nat, past: nat, seen: bool)
    requires Sound(job) && Inv(job, m) && CanStep(m, t)
    ensures TableOk(job, Step(job, m, t, past, seen).table) && Grows(m.table, Step(job, m, t, past, seen).table)
  {
    hide Gcd, Wrap, Owner, LocalOk, BumpsApart, CountOk, EnteredOk, RangeOk, MergedOk, AccumsOk, PathTaken, Distinct;
    ThreadIs(job, m, t);
    match m.threads[t].pc
    case Probe(i, slot, _) =>
      if m.table[slot] == EMPTY {
        FillSlot(job, m.table, slot, ValueAt(job, i));
      }
    case _ =>
  }

  // What a step does to the cells other threads look at.
  lemma CellsStep(job: Job, m: Machine, t: nat, past: nat, seen: bool)
    requires Inv(job, m) && CanStep(m, t)
    ensures var m' := Step(job, m, t, past, seen);
            && m.accums <= m'.accums && |m'.accums| <= |m.accums| + 1
            && m'.bumped == (if m.threads[t].pc.Bump? then m.bumped + [m.threads[t].pc.slot] else m.bumped)
            && (m.overflow ==> m'.overflow) && (m.hasSentinel ==> m'.hasSentinel) && (m.outOfRange ==> m'.outOfRange)
            && m'.outMin <= m.outMin && m.outMax <= m'.outMax
  {
    hide Step, Goes, Locals, Gcd, Inv;
    StepFrame(job, m, t, past, seen);
  }

  lemma PcKept(job: Job, m: Machine, t: nat, past: nat, seen: bool, s: nat)
    requires Sound(job) && Inv(job, m) && CanStep(m, t) && s < |m.threads| && s != t
    ensures PcOk(job, Step(job, m, t, past, seen), s, m.threads[s].pc)
  {
    hide Step, Owner, LocalOk, CountOk, EnteredOk, RangeOk, MergedOk, AccumsOk, PathTaken, Distinct, TableOk;
    var m' := Step(job, m, t, past, seen);
    TableStep(job, m, t, past, seen);
    CellsStep(job, m, t, past, seen);
    ThreadIs(job, m, s);
    match m.threads[s].pc
    case Probe(i, slot, _) => PathKept(job, m.table, m'.table, ValueAt(job, i), slot);
    case _ =>
  }

  // ----- one step: the thread that moved ------------------------------------------------------------------

  // Moving on, a thread is done with no more than the value it had in hand.
  lemma Advance(job: Job, i: nat, j: nat)
    requires Sound(job) && i < Size(job) && j < Size(job) && Owner(job, j) == Owner(job, i)
    requires Taken(job, NextValue(job, i + job.threads), j) || Entered(job, NextValue(job, i + job.threads), j)
    ensures j <= i
  {
    hide Owner;
    if j > i {
      OwnerGap(job, i, j);
    }
  }

  lemma NextOk(job: Job, m: Machine, i: nat, t: nat)
    requires Sound(job) && Owner(job, i) == t
    ensures PcOk(job, m, t, NextValue(job, i + job.threads)) && Rank(NextValue(job, i + job.threads)) <= 1
    ensures !NextValue(job, i + job.threads).Bump?
  {
    assert Owner(job, i + job.threads) == Owner(job, i);
    hide PathTaken, Distinct;
  }

  ghost predicate PcHolds(job: Job, m: Machine, t: nat) {
    match t < |m.threads|
    case true => PcOk(job, m, t, m.threads[t].pc)
    case false => false
  }

  lemma MovedReading(job: Job, m: Machine, t: nat, past: nat, seen: bool)
    requires Sound(job) && CanStep(m, t) && PcOk(job, m, t, m.threads[t].pc)
    requires m.threads[t].pc.Load? || m.threads[t].pc.Flag? || m.threads[t].pc.Sentinel?
    ensures PcHolds(job, Step(job, m, t, past, seen), t)
  {
    hide Gcd, Owner, PathTaken, Distinct, NextValue, InHalfRange;
    var i := m.threads[t].pc.i;
    NextOk(job, Step(job, m, t, past, seen), i, t);
    PathStarts(job, m.table, ValueAt(job, i));
  }

  lemma MovedTable(job: Job, m: Machine, t: nat, past: nat, seen: bool)
    requires Sound(job) && CanStep(m, t) && PcOk(job, m, t, m.threads[t].pc)
    requires match m.threads[t].pc
             case Probe(_, _, _) => ProbeMoves(job, m, t)
             case Bump(_, _) => m.count + 1 > MAX_TABLE ==> |Distinct(job.values)| > MAX_TABLE
             case Raise(_) => true
             case _ => false
    ensures PcHolds(job, Step(job, m, t, past, seen), t)
  {
    hide Gcd, Owner, PathTaken, Distinct, NextValue, NextSlot, Current;
    NextOk(job, Step(job, m, t, past, seen), m.threads[t].pc.i, t);
  }

  lemma MovedMerging(job: Job, m: Machine, t: nat, past: nat, seen: bool)
    requires CanStep(m, t) && Rank(m.threads[t].pc) > 0 && AccumsOk(job, m)
    ensures PcHolds(job, Step(job, m, t, past, seen), t)
  {
    hide Gcd, Owner, Distinct, Divides, TrueGcd, AllInHalfRange;
  }

  lemma MovedPc(job: Job, m: Machine, t: nat, past: nat, seen: bool)
    requires Sound(job) && Inv(job, m) && CanStep(m, t)
    ensures PcHolds(job, Step(job, m, t, past, seen), t)
  {
    hide Step, Sound, PcHolds, PcOk, LocalOk, EnteredOk, RangeOk, MergedOk, BumpsApart, TableOk, AccumsOk, CountOk, ProbeMoves;
    ThreadIs(job, m, t);
    match m.threads[t].pc
    case Load(_) => MovedReading(job, m, t, past, seen);
    case Flag(_) => MovedReading(job, m, t, past, seen);
    case Sentinel(_) => MovedReading(job, m, t, past, seen);
    case Probe(_, _, _) => MovedProbe(job, m, t); MovedTable(job, m, t, past, seen);
    case Bump(_, _) => MovedBump(job, m, t); MovedTable(job, m, t, past, seen);
    case Raise(_) => MovedTable(job, m, t, past, seen);
    case _ => MovedMerging(job, m, t, past, seen);
  }

  lemma PathStarts(job: Job, table: seq<i64>, v: i64)
    requires Sound(job)
    ensures PathTaken(job, table, v, job.home(v)) && job.home(v) < TABLE_SLOTS
  {
    hide TakenByOther;
    assert job.home(v) < TABLE_SLOTS;
  }

  // Where a probe goes on: the slot is free and uncounted, or another one's.
  ghost predicate ProbeMoves(job: Job, m: Machine, t: nat)
    requires t < |m.threads| && m.threads[t].pc.Probe?
  {
    var pc := m.threads[t].pc;
    var v := ValueAt(job, pc.i);
    && pc.slot < |m.table|
    && (m.table[pc.slot] == EMPTY ==> pc.slot !in m.bumped)
    && (m.table[pc.slot] != EMPTY && m.table[pc.slot] != v ==>
          if pc.k + 1 == TABLE_SLOTS then |Distinct(job.values)| > MAX_TABLE
          else NextSlot(pc.slot) < TABLE_SLOTS && Dist(TABLE_SLOTS, job.home(v), NextSlot(pc.slot)) == pc.k + 1
               && PathTaken(job, m.table, v, NextSlot(pc.slot)))
  }

  lemma MovedProbe(job: Job, m: Machine, t: nat)
    requires Sound(job) && Inv(job, m) && CanStep(m, t) && m.threads[t].pc.Probe?
    ensures ProbeMoves(job, m, t)
  {
    hide Step, Owner, LocalOk, EnteredOk, RangeOk, MergedOk, PathTaken, Distinct, AccumsOk, BumpsApart;
    ThreadIs(job, m, t);
    var pc := m.threads[t].pc;
    var v := ValueAt(job, pc.i);
    assert job.home(v) < TABLE_SLOTS;
    if m.table[pc.slot] != EMPTY && m.table[pc.slot] != v {
      if pc.k + 1 == TABLE_SLOTS {
        FullTable(job, m.table, v, pc.slot);
      } else {
        PassSlot(job, m.table, v, pc.slot);
      }
    }
  }

  // The 257th count means 257 distinct values.
  lemma MovedBump(job: Job, m: Machine, t: nat)
    requires Sound(job) && Inv(job, m) && CanStep(m, t) && m.threads[t].pc.Bump?
    ensures m.count + 1 > MAX_TABLE ==> |Distinct(job.values)| > MAX_TABLE
  {
    hide Step, Owner, LocalOk, EnteredOk, RangeOk, MergedOk, PathTaken, Distinct, AccumsOk, BumpsApart;
    ThreadIs(job, m, t);
    var slots := m.bumped + [m.threads[t].pc.slot];
    assert NoDuplicates(slots);
    SlotsWithin(job, m.table, slots);
  }

  lemma MovedLocal(job: Job, m: Machine, t: nat, past: nat, seen: bool)
    requires Sound(job) && Inv(job, m) && CanStep(m, t)
    ensures var m' := Step(job, m, t, past, seen); t < |m'.threads| && LocalOk(job, t, m'.threads[t])
  {
    hide Step, Gcd, Wrap, Owner, EnteredOk, RangeOk, MergedOk, PathTaken, Distinct, AccumsOk, BumpsApart, TableOk, CountOk,
         LocalOk, AllInHalfRange, TrueGcd;
    ThreadIs(job, m, t);
    var th := m.threads[t];
    MovedThread(job, m, t, past, seen);
    if th.pc.Load? {
      LoadLocal(job, m, t);
    } else {
      SameLocal(job, m, t, past, seen);
    }
  }

  // The thread after a step: only a load touches the locals.
  lemma MovedThread(job: Job, m: Machine, t: nat, past: nat, seen: bool)
    requires CanStep(m, t)
    ensures var th := m.threads[t]; var m' := Step(job, m, t, past, seen);
            && t < |m'.threads|
            && (if th.pc.Load? then m'.threads[t] == Locals(job, th, th.pc.i)
                else m'.threads[t] == th.(pc := m'.threads[t].pc))
  {
    hide Step, Goes, Locals, Gcd;
    StepFrame(job, m, t, past, seen);
  }

  lemma LoadLocal(job: Job, m: Machine, t: nat)
    requires Sound(job) && Inv(job, m) && CanStep(m, t) && m.threads[t].pc.Load?
    ensures LocalOk(job, t, Locals(job, m.threads[t], m.threads[t].pc.i))
  {
    hide Step, Gcd, Wrap, Owner, EnteredOk, RangeOk, MergedOk, PathTaken, Distinct, AccumsOk, BumpsApart, TableOk, CountOk,
         AllInHalfRange, TrueGcd, Covers, Divides;
    ThreadIs(job, m, t);
    var th := m.threads[t];
    var i := th.pc.i;
    var th' := Locals(job, th, i);
    LocalGcd(job, th, i);
    LocalEnds(job, th, i);
    forall j | 0 <= j < Size(job) && Owner(job, j) == t && Taken(job, th'.pc, j) ensures Covers(job, th', j) {
      if j != i {
        assert Taken(job, th.pc, j);
        CoversKept(job, th, i, j);
      } else {
        CoversNew(job, th, i);
      }
    }
  }

  lemma LocalEnds(job: Job, th: Thread, i: nat)
    requires i < Size(job)
    ensures var th' := Locals(job, th, i);
            && (th.min == TOP || th.min in job.values ==> th'.min == TOP || th'.min in job.values)
            && (th.max == EMPTY || th.max in job.values ==> th'.max == EMPTY || th'.max in job.values)
  {
    hide Gcd, Wrap;
  }

  lemma InRange(job: Job, i: nat)
    requires AllInHalfRange(job.values) && i < Size(job)
    ensures InHalfRange(ValueAt(job, i)) && Wrap(ValueAt(job, i) - First(job)) == ValueAt(job, i) - First(job)
  {
    hide Wrap;
    assert InHalfRange(job.values[i]) && InHalfRange(job.values[0]);
    WrapIsIdentity(ValueAt(job, i) - First(job));
  }

  // Under AllInHalfRange the local gcd takes the true delta in.
  lemma LocalGcd(job: Job, th: Thread, i: nat)
    requires i < Size(job) && (AllInHalfRange(job.values) ==> Divides(TrueGcd(job), th.gcd))
    ensures AllInHalfRange(job.values) ==>
              && Locals(job, th, i).gcd == Gcd(th.gcd, Delta(job, i))
              && Divides(TrueGcd(job), Locals(job, th, i).gcd)
  {
    hide Gcd, Wrap, Divides, TrueGcd, AllInHalfRange;
    if AllInHalfRange(job.values) {
      InRange(job, i);
      GcdDivisors(th.gcd, Delta(job, i), TrueGcd(job));
      TrueGcdDivides(job, i);
    }
  }

  lemma TrueGcdDivides(job: Job, i: nat)
    requires i < Size(job)
    ensures Divides(TrueGcd(job), Delta(job, i))
  {
    hide Gcd, GcdAll, Divides;
    var d := Deltas(job.values, First(job));
    DividesSelf(GcdAll(d));
    GcdAllDivisors(d, GcdAll(d));
    assert d[i] == Delta(job, i);
  }

  lemma GcdDividesBoth(a: nat, b: nat)
    ensures Divides(Gcd(a, b), a) && Divides(Gcd(a, b), b)
  {
    hide Gcd, Divides;
    DividesSelf(Gcd(a, b));
    GcdDivisors(a, b, Gcd(a, b));
  }

  lemma {:induction false} DividesTransitive(a: nat, b: nat, c: nat)
    requires Divides(a, b) && Divides(b, c)
    ensures Divides(a, c)
    decreases c
  {
    if c > 0 {
      DividesTransitive(a, b, c - b);
      DividesAdd(a, b, c - b);
    }
  }

  lemma CoversKept(job: Job, th: Thread, i: nat, j: nat)
    requires i < Size(job) && Covers(job, th, j) && (AllInHalfRange(job.values) ==> Divides(TrueGcd(job), th.gcd))
    ensures Covers(job, Locals(job, th, i), j)
  {
    hide Gcd, Wrap, Divides, TrueGcd, AllInHalfRange, Delta;
    LocalGcd(job, th, i);
    if AllInHalfRange(job.values) {
      GcdDividesBoth(th.gcd, Delta(job, i));
      DividesTransitive(Gcd(th.gcd, Delta(job, i)), th.gcd, Delta(job, j));
    }
  }

  lemma CoversNew(job: Job, th: Thread, i: nat)
    requires i < Size(job) && (AllInHalfRange(job.values) ==> Divides(TrueGcd(job), th.gcd))
    ensures Covers(job, Locals(job, th, i), i)
  {
    hide Gcd, Wrap, Divides, TrueGcd, AllInHalfRange, Delta;
    LocalGcd(job, th, i);
    GcdDividesBoth(th.gcd, Delta(job, i));
  }

  // A step that is not a load takes nothing more in.
  lemma TakenKept(job: Job, m: Machine, t: nat, past: nat, seen: bool, j: nat)
    requires Sound(job) && Inv(job, m) && CanStep(m, t) && !m.threads[t].pc.Load?
    requires j < Size(job) && Owner(job, j) == t && t < |Step(job, m, t, past, seen).threads|
    requires Taken(job, Step(job, m, t, past, seen).threads[t].pc, j)
    ensures Taken(job, m.threads[t].pc, j)
  {
    hide Gcd, Wrap, Owner, EnteredOk, RangeOk, MergedOk, PathTaken, Distinct, AccumsOk, BumpsApart, TableOk, CountOk, LocalOk,
         NextValue, NextSlot;
    ThreadIs(job, m, t);
    var pc := m.threads[t].pc;
    var pc' := Step(job, m, t, past, seen).threads[t].pc;
    if Rank(pc) == 0 && pc' == NextValue(job, Position(job, pc) + job.threads) {
      Advance(job, Position(job, pc), j);
    }
  }

  lemma SameLocal(job: Job, m: Machine, t: nat, past: nat, seen: bool)
    requires Sound(job) && Inv(job, m) && CanStep(m, t) && !m.threads[t].pc.Load?
    ensures var m' := Step(job, m, t, past, seen); t < |m'.threads| && LocalOk(job, t, m'.threads[t])
  {
    hide Step, Gcd, Wrap, Owner, EnteredOk, RangeOk, MergedOk, PathTaken, Distinct, AccumsOk, BumpsApart, TableOk, CountOk,
         AllInHalfRange, TrueGcd, Taken, Divides;
    ThreadIs(job, m, t);
    MovedThread(job, m, t, past, seen);
    var th' := Step(job, m, t, past, seen).threads[t];
    forall j | 0 <= j < Size(job) && Owner(job, j) == t && Taken(job, th'.pc, j) ensures Covers(job, th', j) {
      TakenKept(job, m, t, past, seen, j);
    }
  }

  lemma ThreadsStep(job: Job, m: Machine, t: nat, past: nat, seen: bool)
    requires Sound(job) && Inv(job, m) && CanStep(m, t)
    ensures ThreadsOk(job, Step(job, m, t, past, seen))
  {
    hide Step, PcOk, LocalOk, EnteredOk, RangeOk, MergedOk, AccumsOk, BumpsApart, TableOk, CountOk;
    var m' := Step(job, m, t, past, seen);
    StepShape(job, m, t, past, seen);
    forall s | 0 <= s < |m'.threads| ensures PcOk(job, m', s, m'.threads[s].pc) && LocalOk(job, s, m'.threads[s]) {
      if s == t {
        MovedPc(job, m, t, past, seen);
        MovedLocal(job, m, t, past, seen);
      } else {
        PcKept(job, m, t, past, seen, s);
        ThreadIs(job, m, s);
      }
    }
  }

  // ----- one step: counting ---------------------------------------------------------------------------------

  lemma CountStep(job: Job, m: Machine, t: nat, past: nat, seen: bool)
    requires Sound(job) && Inv(job, m) && CanStep(m, t)
    ensures CountOk(Step(job, m, t, past, seen))
  {
    hide Step, Owner, LocalOk, EnteredOk, RangeOk, MergedOk, PathTaken, Distinct, AccumsOk, BumpsApart, TableOk;
    var m' := Step(job, m, t, past, seen);
    TableStep(job, m, t, past, seen);
    CellsStep(job, m, t, past, seen);
    CountIs(m, t, job, past, seen);
    ThreadIs(job, m, t);
  }

  lemma CountIs(m: Machine, t: nat, job: Job, past: nat, seen: bool)
    requires CanStep(m, t)
    ensures Step(job, m, t, past, seen).count == m.count + if m.threads[t].pc.Bump? then 1 else 0
  {
    hide Step, Goes, Locals, Gcd;
    StepFrame(job, m, t, past, seen);
  }

  // A new claim is of a slot that was empty.
  lemma NewBump(job: Job, m: Machine, t: nat, past: nat, seen: bool)
    requires Sound(job) && Inv(job, m) && CanStep(m, t)
    ensures var m' := Step(job, m, t, past, seen);
            && t < |m'.threads|
            && (m'.threads[t].pc.Bump? ==> m'.threads[t].pc.slot < |m.table| && m.table[m'.threads[t].pc.slot] == EMPTY)
  {
    hide Step, Gcd, LocalOk, EnteredOk, RangeOk, MergedOk, AccumsOk, BumpsApart, CountOk, Frame, PathTaken, Distinct, Owner;
    StepFrame(job, m, t, past, seen);
    ThreadIs(job, m, t);
  }

  lemma BumpsStep(job: Job, m: Machine, t: nat, past: nat, seen: bool)
    requires Sound(job) && Inv(job, m) && CanStep(m, t)
    ensures BumpsApart(Step(job, m, t, past, seen))
  {
    hide Step, Owner, LocalOk, EnteredOk, RangeOk, MergedOk, PathTaken, Distinct, AccumsOk, TableOk, CountOk;
    var m' := Step(job, m, t, past, seen);
    StepShape(job, m, t, past, seen);
    NewBump(job, m, t, past, seen);
    forall r, s | 0 <= r < s < |m'.threads| && m'.threads[r].pc.Bump? && m'.threads[s].pc.Bump?
      ensures m'.threads[r].pc.slot != m'.threads[s].pc.slot
    {
      ThreadIs(job, m, r);
      ThreadIs(job, m, s);
    }
  }

  // ----- one step: values entered --------------------------------------------------------------------------------

  lemma FoundKept(job: Job, m: Machine, t: nat, past: nat, seen: bool, v: i64)
    requires Sound(job) && Inv(job, m) && CanStep(m, t) && Found(m, v)
    ensures Found(Step(job, m, t, past, seen), v)
  {
    hide Step, ThreadsOk, EnteredOk, RangeOk, MergedOk, PathTaken, Distinct, AccumsOk, TableOk, CountOk, BumpsApart;
    var m' := Step(job, m, t, past, seen);
    TableStep(job, m, t, past, seen);
    CellsStep(job, m, t, past, seen);
    if v != EMPTY && v in m.table {
      var s :| 0 <= s < |m.table| && m.table[s] == v;
      assert m'.table[s] == v;
    }
  }

  // The value in hand, when the thread is done with it.
  lemma FoundNow(job: Job, m: Machine, t: nat, past: nat, seen: bool)
    requires Sound(job) && Inv(job, m) && CanStep(m, t) && Rank(m.threads[t].pc) == 0
    requires t < |Step(job, m, t, past, seen).threads|
    requires Entered(job, Step(job, m, t, past, seen).threads[t].pc, Position(job, m.threads[t].pc))
    ensures Found(Step(job, m, t, past, seen), ValueAt(job, Position(job, m.threads[t].pc)))
  {
    hide Gcd, Wrap, Owner, LocalOk, EnteredOk, RangeOk, MergedOk, PathTaken, Distinct, InHalfRange, Divides, AccumsOk,
         BumpsApart, NextSlot, TrueGcd, AllInHalfRange, CountOk, Locals;
    ThreadIs(job, m, t);
    var m' := Step(job, m, t, past, seen);
    match m.threads[t].pc
    case Probe(i, slot, _) => assert m'.table[slot] == m'.table[slot];
    case Bump(i, slot) => assert m.table[slot] in m.table;
    case _ =>
  }

  lemma EnteredBefore(job: Job, m: Machine, t: nat, past: nat, seen: bool, j: nat)
    requires Sound(job) && Inv(job, m) && CanStep(m, t) && j < Size(job) && Owner(job, j) == t
    requires t < |Step(job, m, t, past, seen).threads|
    requires Entered(job, Step(job, m, t, past, seen).threads[t].pc, j)
    ensures Entered(job, m.threads[t].pc, j) || (Rank(m.threads[t].pc) == 0 && j == Position(job, m.threads[t].pc))
  {
    hide Gcd, Wrap, Owner, EnteredOk, RangeOk, MergedOk, PathTaken, Distinct, AccumsOk, BumpsApart, TableOk, CountOk, LocalOk,
         NextValue, NextSlot, InHalfRange, ValueAt;
    ThreadIs(job, m, t);
    var pc := m.threads[t].pc;
    var pc' := Step(job, m, t, past, seen).threads[t].pc;
    if Rank(pc) == 0 && pc' == NextValue(job, Position(job, pc) + job.threads) {
      Advance(job, Position(job, pc), j);
    }
  }

  lemma EnteredStep(job: Job, m: Machine, t: nat, past: nat, seen: bool)
    requires Sound(job) && Inv(job, m) && CanStep(m, t)
    ensures EnteredOk(job, Step(job, m, t, past, seen))
  {
    hide Step, Owner, LocalOk, RangeOk, MergedOk, PathTaken, Distinct, AccumsOk, BumpsApart, TableOk, CountOk, Found, Entered, PcOk;
    var m' := Step(job, m, t, past, seen);
    StepShape(job, m, t, past, seen);
    FlagsStep(job, m, t, past, seen);
    forall j | 0 <= j < Size(job) && Entered(job, PcOf(job, m', j), j) ensures Found(m', ValueAt(job, j)) {
      OwnerBound(job, j);
      if Owner(job, j) == t {
        EnteredBefore(job, m, t, past, seen, j);
        if Entered(job, m.threads[t].pc, j) {
          FoundKept(job, m, t, past, seen, ValueAt(job, j));
        } else {
          FoundNow(job, m, t, past, seen);
        }
      } else {
        FoundKept(job, m, t, past, seen, ValueAt(job, j));
      }
    }
  }

  lemma FlagsStep(job: Job, m: Machine, t: nat, past: nat, seen: bool)
    requires Sound(job) && Inv(job, m) && CanStep(m, t)
    ensures var m' := Step(job, m, t, past, seen);
            && (m'.overflow ==> |Distinct(job.values)| > MAX_TABLE) && (m'.hasSentinel ==> EMPTY in job.values)
  {
    hide Gcd, Wrap, Owner, LocalOk, RangeOk, MergedOk, PathTaken, Distinct, InHalfRange, Divides, AccumsOk,
         BumpsApart, NextSlot, TrueGcd, AllInHalfRange, CountOk, Locals, NextValue;
    ThreadIs(job, m, t);
  }

  // ----- one step: range, ends and accumulator ----------------------------------------------------------------------

  lemma RangeStep(job: Job, m: Machine, t: nat, past: nat, seen: bool)
    requires Sound(job) && Inv(job, m) && CanStep(m, t)
    ensures RangeOk(job, Step(job, m, t, past, seen))
  {
    hide Step, Owner, LocalOk, EnteredOk, MergedOk, PathTaken, Distinct, AccumsOk, BumpsApart, TableOk, CountOk, Taken, PcOk,
         InHalfRange;
    var m' := Step(job, m, t, past, seen);
    StepShape(job, m, t, past, seen);
    CellsStep(job, m, t, past, seen);
    RangeFlag(job, m, t, past, seen);
    forall j | 0 <= j < Size(job) && Taken(job, PcOf(job, m', j), j) && !InHalfRange(ValueAt(job, j)) ensures m'.outOfRange {
      OwnerBound(job, j);
      if Owner(job, j) == t {
        if m.threads[t].pc.Load? {
          LoadTaken(job, m, t, j);
        } else {
          TakenKept(job, m, t, past, seen, j);
        }
      }
    }
  }

  lemma LoadTaken(job: Job, m: Machine, t: nat, j: nat)
    requires CanStep(m, t) && m.threads[t].pc.Load? && Taken(job, Flag(m.threads[t].pc.i), j)
    ensures j == m.threads[t].pc.i || Taken(job, m.threads[t].pc, j)
  {
  }

  lemma RangeFlag(job: Job, m: Machine, t: nat, past: nat, seen: bool)
    requires Sound(job) && Inv(job, m) && CanStep(m, t)
    ensures var m' := Step(job, m, t, past, seen);
            && (m'.outOfRange ==> !AllInHalfRange(job.values))
            && (m.threads[t].pc.Load? ==>
                  && t < |m'.threads| && m'.threads[t].pc == Flag(m.threads[t].pc.i)
                  && (!InHalfRange(ValueAt(job, m.threads[t].pc.i)) ==> m'.outOfRange))
  {
    hide Gcd, Wrap, Owner, LocalOk, EnteredOk, MergedOk, PathTaken, Distinct, InHalfRange, Divides, AccumsOk,
         BumpsApart, NextSlot, TrueGcd, CountOk, NextValue, TableOk;
    ThreadIs(job, m, t);
  }

  lemma MinCell(job: Job, m: Machine, t: nat, past: nat, seen: bool)
    requires Sound(job) && Inv(job, m) && CanStep(m, t)
    ensures var m' := Step(job, m, t, past, seen);
            && (m'.outMin == TOP || m'.outMin in job.values) && t < |m'.threads|
            && (Rank(m'.threads[t].pc) >= 2 ==> m'.outMin <= m'.threads[t].min)
  {
    hide Step, Gcd, EnteredOk, Divides, AccumsOk, Covers, PcOk, BumpsApart, TrueGcd, AllInHalfRange, CountOk, TableOk, RangeOk, Taken,
         Locals;
    ThreadIs(job, m, t);
    StepFrame(job, m, t, past, seen);
  }

  lemma MaxCell(job: Job, m: Machine, t: nat, past: nat, seen: bool)
    requires Sound(job) && Inv(job, m) && CanStep(m, t)
    ensures var m' := Step(job, m, t, past, seen);
            && (m'.outMax == EMPTY || m'.outMax in job.values) && t < |m'.threads|
            && (Rank(m'.threads[t].pc) >= 3 ==> m'.threads[t].max <= m'.outMax)
  {
    hide Step, Gcd, EnteredOk, Divides, AccumsOk, Covers, PcOk, BumpsApart, TrueGcd, AllInHalfRange, CountOk, TableOk, RangeOk, Taken,
         Locals;
    ThreadIs(job, m, t);
    StepFrame(job, m, t, past, seen);
  }

  lemma MergedStep(job: Job, m: Machine, t: nat, past: nat, seen: bool)
    requires Sound(job) && Inv(job, m) && CanStep(m, t)
    ensures MergedOk(job, Step(job, m, t, past, seen))
  {
    hide Step, Owner, ThreadsOk, EnteredOk, PathTaken, Distinct, AccumsOk, BumpsApart, TableOk, CountOk, RangeOk;
    StepShape(job, m, t, past, seen);
    CellsStep(job, m, t, past, seen);
    MinCell(job, m, t, past, seen);
    MaxCell(job, m, t, past, seen);
  }

  // The accumulator after a step.
  lemma AccumMoves(job: Job, m: Machine, t: nat, past: nat, seen: bool)
    requires Sound(job) && Inv(job, m) && CanStep(m, t)
    ensures var th := m.threads[t]; var m' := Step(job, m, t, past, seen);
            && t < |m'.threads|
            && (m'.accums == m.accums || m'.accums == m.accums + [Gcd(Current(m), th.gcd)])
            && (m'.threads[t].pc.Done? ==>
                  && m'.threads[t].gcd == th.gcd
                  && (m'.accums == m.accums + [Gcd(Current(m), th.gcd)]
                      || exists cur :: cur in m.accums && Gcd(cur, th.gcd) == cur))
  {
    hide Step, Gcd, LocalOk, EnteredOk, Distinct, Divides, MergedOk, BumpsApart, TrueGcd, AllInHalfRange, CountOk, TableOk, RangeOk,
         Locals, Owner, PathTaken;
    ThreadIs(job, m, t);
    StepFrame(job, m, t, past, seen);
  }

  lemma CurrentDivides(job: Job, m: Machine, cur: nat)
    requires AccumsOk(job, m) && cur in m.accums
    ensures Divides(Current(m), cur)
  {
    hide Divides, TrueGcd, AllInHalfRange;
    var a :| 0 <= a < |m.accums| && m.accums[a] == cur;
  }

  lemma AccumAppends(job: Job, m: Machine, gcd: nat, accums: seq<nat>)
    requires AccumsOk(job, m) && accums == m.accums + [Gcd(Current(m), gcd)]
    requires AllInHalfRange(job.values) ==> Divides(TrueGcd(job), gcd)
    ensures forall a, b :: 0 <= a <= b < |accums| ==> Divides(accums[b], accums[a])
    ensures AllInHalfRange(job.values) ==> forall a :: 0 <= a < |accums| ==> Divides(TrueGcd(job), accums[a])
    ensures Divides(accums[|accums| - 1], Current(m)) && Divides(accums[|accums| - 1], gcd)
  {
    hide Divides, Gcd, TrueGcd, AllInHalfRange;
    var merged := Gcd(Current(m), gcd);
    GcdDividesBoth(Current(m), gcd);
    GcdDivisors(Current(m), gcd, TrueGcd(job));
    forall a, b | 0 <= a <= b < |accums| ensures Divides(accums[b], accums[a]) {
      if b == |m.accums| {
        if a < b {
          CurrentDivides(job, m, m.accums[a]);
          DividesTransitive(merged, Current(m), m.accums[a]);
        } else {
          DividesSelf(merged);
        }
      }
    }
  }

  lemma AccumsStep(job: Job, m: Machine, t: nat, past: nat, seen: bool)
    requires Sound(job) && Inv(job, m) && CanStep(m, t)
    ensures AccumsOk(job, Step(job, m, t, past, seen))
  {
    hide Step, Owner, PcOk, EnteredOk, PathTaken, Distinct, BumpsApart, TableOk, CountOk, RangeOk, MergedOk, Divides, Gcd, TrueGcd,
         AllInHalfRange, Covers, Taken;
    var m' := Step(job, m, t, past, seen);
    var th := m.threads[t];
    StepShape(job, m, t, past, seen);
    AccumMoves(job, m, t, past, seen);
    ThreadIs(job, m, t);
    if m'.accums != m.accums {
      AccumAppends(job, m, th.gcd, m'.accums);
    } else {
      DividesSelf(Current(m));
    }
    forall s | 0 <= s < |m'.threads| && m'.threads[s].pc.Done? ensures Divides(Current(m'), m'.threads[s].gcd) {
      if s != t {
        if m'.accums != m.accums {
          DividesTransitive(Current(m'), Current(m), m.threads[s].gcd);
        }
      } else if m'.accums == m.accums {
        var cur :| cur in m.accums && Gcd(cur, th.gcd) == cur;
        GcdDividesBoth(cur, th.gcd);
        CurrentDivides(job, m, cur);
        DividesTransitive(Current(m), cur, th.gcd);
      }
    }
  }

  // ----- every run -----------------------------------------------------------------------------------------------------

  lemma StepInv(job: Job, m: Machine, t: nat, past: nat, seen: bool)
    requires Sound(job) && Inv(job, m) && CanStep(m, t)
    ensures Inv(job, Step(job, m, t, past, seen))
  {
    hide Step, ThreadsOk, EnteredOk, AccumsOk, BumpsApart, TableOk, CountOk, RangeOk, MergedOk;
    ThreadsStep(job, m, t, past, seen);
    TableStep(job, m, t, past, seen);
    BumpsStep(job, m, t, past, seen);
    CountStep(job, m, t, past, seen);
    EnteredStep(job, m, t, past, seen);
    RangeStep(job, m, t, past, seen);
    MergedStep(job, m, t, past, seen);
    AccumsStep(job, m, t, past, seen);
  }

  lemma {:induction false} RunInv(job: Job, run: seq<Machine>, k: nat)
    requires Sound(job) && IsRun(job, run) && k < |run|
    ensures Inv(job, run[k])
    decreases k
  {
    hide Step, Inv, Start, Sound;
    if k == 0 {
      StartInv(job);
    } else {
      RunInv(job, run, k - 1);
      assert Moves(job, run[k - 1], run[k - 1 + 1]);
      var t: nat, past: nat, seen: bool :| CanStep(run[k - 1], t) && run[k] == Step(job, run[k - 1], t, past, seen);
      StepInv(job, run[k - 1], t, past, seen);
    }
  }

  // ----- the cells at the end -----------------------------------------------------------------------------------------------

  lemma AllDone(job: Job, m: Machine, j: nat)
    requires Sound(job) && Inv(job, m) && Finished(m) && j < Size(job)
    ensures Owner(job, j) < |m.threads| && PcOf(job, m, j) == Done
    ensures Taken(job, Done, j) && Entered(job, Done, j)
    ensures Covers(job, m.threads[Owner(job, j)], j)
  {
    hide Owner, PcOk, Covers, TrueGcd, EnteredOk, AccumsOk, BumpsApart, TableOk, CountOk, RangeOk, MergedOk;
    OwnerBound(job, j);
    ThreadIs(job, m, Owner(job, j));
  }

  lemma FinalEnds(job: Job, m: Machine)
    requires Sound(job) && Inv(job, m) && Finished(m)
    ensures m.outMin in job.values && m.outMax in job.values
    ensures forall j :: 0 <= j < Size(job) ==> m.outMin <= job.values[j] <= m.outMax
  {
    hide Owner, PcOk, LocalOk, TrueGcd, EnteredOk, AccumsOk, BumpsApart, TableOk, CountOk, RangeOk, Divides, AllInHalfRange;
    forall j | 0 <= j < Size(job) ensures m.outMin <= job.values[j] <= m.outMax {
      AllDone(job, m, j);
      var t := Owner(job, j);
      assert m.threads[t].pc.Done? && Rank(m.threads[t].pc) >= 3;
    }
    assert m.outMin <= job.values[0] <= m.outMax;
  }

  lemma FinalRange(job: Job, m: Machine)
    requires Sound(job) && Inv(job, m) && Finished(m)
    ensures m.outOfRange <==> !AllInHalfRange(job.values)
  {
    hide Owner, ThreadsOk, TrueGcd, EnteredOk, AccumsOk, BumpsApart, TableOk, CountOk, MergedOk, Divides, InHalfRange;
    if !AllInHalfRange(job.values) {
      var j :| 0 <= j < |job.values| && !InHalfRange(job.values[j]);
      AllDone(job, m, j);
    }
  }

  // In range, the accumulator divides every delta and is a multiple of their gcd.
  lemma FinalGcd(job: Job, m: Machine)
    requires Sound(job) && Inv(job, m) && Finished(m) && AllInHalfRange(job.values)
    ensures Current(m) == TrueGcd(job) < TWO_63
  {
    hide Owner, PcOk, LocalOk, EnteredOk, BumpsApart, TableOk, CountOk, RangeOk, MergedOk, Divides, GcdAll, AllInHalfRange,
         Current, TrueGcd;
    var d := Deltas(job.values, First(job));
    forall j | 0 <= j < |d| ensures Divides(Current(m), d[j]) {
      AllDone(job, m, j);
      var t := Owner(job, j);
      assert m.threads[t].pc.Done?;
      DoneDivides(job, m, t);
      DividesTransitive(Current(m), m.threads[t].gcd, d[j]);
    }
    GcdAllDivisors(d, Current(m));
    CurrentMultiple(job, m);
    TrueGcdIs(job);
    BothDivide(Current(m), TrueGcd(job));
    InRange(job, 0);
    GcdAllInRange(job.values, First(job));
  }

  lemma DoneDivides(job: Job, m: Machine, t: nat)
    requires AccumsOk(job, m) && t < |m.threads| && m.threads[t].pc.Done?
    ensures Divides(Current(m), m.threads[t].gcd)
  {
  }

  lemma CurrentMultiple(job: Job, m: Machine)
    requires AccumsOk(job, m) && AllInHalfRange(job.values)
    ensures Divides(TrueGcd(job), Current(m))
  {
  }

  lemma TrueGcdIs(job: Job)
    ensures TrueGcd(job) == GcdAll(Deltas(job.values, First(job)))
  {
  }

  lemma BothDivide(a: nat, b: nat)
    requires Divides(a, b) && Divides(b, a)
    ensures a == b
  {
    forall d: nat ensures Divides(d, a) <==> Divides(d, b) {
      if Divides(d, a) {
        DividesTransitive(d, a, b);
      }
      if Divides(d, b) {
        DividesTransitive(d, b, a);
      }
    }
    DivisorsDetermine(a, b);
  }

  lemma {:induction false} KeptMembers(table: seq<i64>)
    ensures forall v :: v in Kept(table) <==> v in table && v != EMPTY
  {
    if table != [] {
      var n := |table| - 1;
      KeptMembers(table[..n]);
      assert table == table[..n] + [table[n]];
    }
  }

  lemma {:induction false} KeptDistinct(table: seq<i64>)
    requires forall s, q :: 0 <= s < q < |table| && table[s] != EMPTY ==> table[s] != table[q]
    ensures |Kept(table)| == |Distinct(Kept(table))|
  {
    if table != [] {
      var n := |table| - 1;
      KeptDistinct(table[..n]);
      KeptMembers(table[..n]);
      if table[n] != EMPTY {
        assert table[n] !in table[..n];
        DistinctSnoc(Kept(table[..n]), table[n]);
        assert table[n] !in Distinct(Kept(table[..n]));
      } else {
        assert Kept(table) == Kept(table[..n]);
      }
    }
  }

  lemma TableDistinct(job: Job, table: seq<i64>)
    requires Sound(job) && TableOk(job, table)
    ensures forall s, q :: 0 <= s < q < |table| && table[s] != EMPTY ==> table[s] != table[q]
  {
    hide PathTaken;
    forall s, q | 0 <= s < q < |table| && table[s] != EMPTY ensures table[s] != table[q] {
      if table[s] == table[q] {
        OneSlot(job, table, s, q);
      }
    }
  }

  // Without overflow the list is the distinct values, each once.
  lemma FinalList(job: Job, m: Machine)
    requires Sound(job) && Inv(job, m) && Finished(m) && !m.overflow
    ensures Distinct(Listed(m.table, m.hasSentinel)) == Distinct(job.values)
    ensures |Listed(m.table, m.hasSentinel)| == |Distinct(job.values)|
  {
    hide Owner, ThreadsOk, AccumsOk, BumpsApart, CountOk, RangeOk, MergedOk, Kept, PathTaken;
    var t := Listed(m.table, m.hasSentinel);
    KeptMembers(m.table);
    TableDistinct(job, m.table);
    KeptDistinct(m.table);
    forall v: i64 ensures v in Distinct(t) <==> v in Distinct(job.values) {
      if v in job.values {
        var j :| 0 <= j < |job.values| && job.values[j] == v;
        AllDone(job, m, j);
        assert Found(m, v);
      }
      if v in Kept(m.table) {
        var s :| 0 <= s < |m.table| && m.table[s] == v;
      }
    }
    if m.hasSentinel {
      DistinctSnoc(Kept(m.table), EMPTY);
      assert EMPTY !in Distinct(Kept(m.table));
    } else {
      assert t == Kept(m.table);
    }
  }

  // Whatever the interleaving and the stale reads, the cells hold the statistics
  // of the column; so they agree with the sequential pass (StatsUnique).
  lemma DeviceStats(job: Job, run: seq<Machine>)
    requires Sound(job) && IsRun(job, run) && Finished(run[|run| - 1])
    ensures var m := run[|run| - 1];
            && (Current(m) < TWO_63 || m.outOfRange)
            && IsStats(job.values, ResultOf(m.outMin, m.outMax, Current(m), m.outOfRange, m.table, m.hasSentinel, m.overflow))
  {
    hide Inv, IsTable, AllInHalfRange, Current, GcdAll, TrueGcd, Listed;
    var m := run[|run| - 1];
    RunInv(job, run, |run| - 1);
    FinalEnds(job, m);
    FinalRange(job, m);
    if !m.outOfRange {
      FinalGcd(job, m);
      TrueGcdIs(job);
    }
    FinalTable(job, m);
  }

  lemma FinalTable(job: Job, m: Machine)
    requires Sound(job) && Inv(job, m) && Finished(m)
    ensures var t := Listed(m.table, m.hasSentinel);
            IsTable(Distinct(job.values), if m.overflow || |t| > MAX_TABLE then None else Some(SortedSeq(Distinct(t))))
  {
    hide ThreadsOk, AccumsOk, BumpsApart, CountOk, RangeOk, MergedOk, TableOk, Listed, Distinct;
    if !m.overflow {
      FinalList(job, m);
    }
  }
}
