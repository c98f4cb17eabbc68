// The kernel as a machine. A step is one atomic operation (or one private
// branch) of one thread; the three logs record the order in which runs reached
// the shared counters and are read by the proofs only.
module TextMachine {
  import opened Bits
  import opened Wire
  import opened Lex
  import opened Analyzer
  import opened Csr
  import opened Machines
  import opened TextKernel

  // `home` is the masked hash of a term; any function will do.
  datatype Job = Job(text: seq<byte>, home: Term -> nat) {
    function PairCap(): nat { |text| / 2 + 16 }
    function SpanCap(): nat { |text| / 8 + 16 }
    function Threads(): nat { (|text| + SLICE - 1) / SLICE }
  }

  ghost predicate Sound(job: Job) {
    (forall t :: job.home(t) < TABLE_CAP) && NumDocs(job.text) <= TWO_32
  }

  // Where a thread stands; i is the byte it looks at or the run it handles.
  datatype Pc =
    | Scan(i: nat)                            // next byte
    | Probe(i: nat, slot: nat)                // atomicCAS(&table[slot], 0, myloc)
    | Claim(i: nat, winner: nat)              // atomicAdd(pair_count, 1)
    | StorePair(i: nat, winner: nat, p: nat)  // pairs[p] = ...
    | CountToken(i: nat)                      // atomicAdd(&doc_tokens[doc], 1)
    | ClaimSpan(i: nat)                       // atomicAdd(dirty_count, 1)
    | StoreSpan(i: nat, d: nat)               // dirty[d] = ...

  datatype Machine = Machine(
    pcs: seq<Pc>, table: seq<nat>, pairs: seq<nat>, pairCount: nat, spans: seq<nat>, spanCount: nat,
    docTokens: seq<nat>, claims: seq<nat>, spanClaims: seq<nat>, counted: seq<nat>)

  function SliceEnd(job: Job, t: nat): nat {
    if SLICE * t + SLICE < |job.text| then SLICE * t + SLICE else |job.text|
  }

  function Start(job: Job): Machine {
    Machine(seq(job.Threads(), t requires 0 <= t => Scan(SLICE * t)), seq(TABLE_CAP, s => 0), seq(job.PairCap(), p => 0), 0,
            seq(job.SpanCap(), d => 0), 0, seq(NumDocs(job.text), d => 0), [], [], [])
  }

  // A thread past its slice has returned.
  predicate CanStep(job: Job, m: Machine, t: nat) { t < |m.pcs| && m.pcs[t].i < SliceEnd(job, t) }

  predicate Finished(job: Job, m: Machine) { forall t :: 0 <= t < |m.pcs| ==> !CanStep(job, m, t) }

  function At(m: Machine, t: nat, pc: Pc): Machine { m.(pcs := Put(m.pcs, t, pc)) }

  function SlotTerm(job: Job, loc: nat): Term { TermAt(job.text, LocStart(loc)) }

  function NextSlot(slot: nat): nat { if slot + 1 < TABLE_CAP then slot + 1 else 0 }

  // The branch at one byte.
  function AfterByte(job: Job, i: nat): Pc {
    if !StartsRun(job.text, i) then Scan(i + 1)
    else if HasWide(job.text, i, RunEnd(job.text, i)) then ClaimSpan(i)
    else if RunEnd(job.text, i) - i > MAX_TOKEN_LEN then Scan(i + 1)
    else Probe(i, job.home(TermAt(job.text, i)))
  }

  function Step(job: Job, m: Machine, t: nat): Machine
    requires CanStep(job, m, t)
  {
    match m.pcs[t]
    case Scan(i) => At(m, t, AfterByte(job, i))
    case Probe(i, slot) =>
      var seen := if slot < |m.table| then m.table[slot] else 0;
      if seen == 0 then At(m.(table := Put(m.table, slot, Loc(job.text, i))), t, Claim(i, slot))
      else if SlotTerm(job, seen) == TermAt(job.text, i) then At(m, t, Claim(i, slot))
      else At(m, t, Probe(i, NextSlot(slot)))
    case Claim(i, winner) =>
      At(m.(pairCount := m.pairCount + 1, claims := m.claims + [i]), t, StorePair(i, winner, m.pairCount))
    case StorePair(i, winner, p) =>
      At(m.(pairs := Put(m.pairs, p, Key(winner, DocAt(job.text, i)))), t, CountToken(i))
    case CountToken(i) =>
      var doc := DocAt(job.text, i);
      var tokens := if doc < |m.docTokens| then m.docTokens[doc] + 1 else 0;
      At(m.(docTokens := Put(m.docTokens, doc, tokens), counted := m.counted + [i]), t, Scan(i + 1))
    case ClaimSpan(i) =>
      At(m.(spanCount := m.spanCount + 1, spanClaims := m.spanClaims + [i]), t,
         if m.spanCount < job.SpanCap() then StoreSpan(i, m.spanCount) else Scan(i + 1))
    case StoreSpan(i, d) =>
      At(m.(spans := Put(m.spans, d, Loc(job.text, i))), t, Scan(i + 1))
  }

  // A run of the machine: any thread that has not returned may move.
  ghost predicate IsRun(job: Job, run: seq<Machine>) {
    && run != [] && run[0] == Start(job)
    && forall k :: 0 <= k < |run| - 1 ==> Moves(job, run[k], run[k + 1])
  }

  ghost predicate Moves(job: Job, m: Machine, m': Machine) {
    exists t :: CanStep(job, m, t) && m' == Step(job, m, t)
  }

  // ----- the vocabulary table ------------------------------------------------------------

  // How far `slot` is along the probe path that starts at `home`.
  predicate Holds(job: Job, table: seq<nat>, slot: nat, term: Term) {
    slot < |table| && table[slot] != 0 && SlotTerm(job, table[slot]) == term
  }

  predicate TakenByOther(job: Job, table: seq<nat>, slot: nat, term: Term) {
    slot < |table| && table[slot] != 0 && SlotTerm(job, table[slot]) != term
  }

  // Every slot before `slot` on the term's probe path belongs to another term.
  ghost predicate PathTaken(job: Job, table: seq<nat>, term: Term, slot: nat) {
    forall q :: 0 <= q < TABLE_CAP && Dist(TABLE_CAP, job.home(term), q) < Dist(TABLE_CAP, job.home(term), slot)
                ==> TakenByOther(job, table, q, term)
  }

  ghost predicate SlotOk(job: Job, table: seq<nat>, slot: nat)
    requires slot < |table|
  {
    var i := LocStart(table[slot]);
    && Clean(job.text, i) && table[slot] == Loc(job.text, i)
    && PathTaken(job, table, TermAt(job.text, i), slot)
  }

  ghost predicate TableOk(job: Job, table: seq<nat>) {
    |table| == TABLE_CAP && forall s :: 0 <= s < TABLE_CAP && table[s] != 0 ==> SlotOk(job, table, s)
  }

  lemma NotBefore(job: Job, table: seq<nat>, s: nat, q: nat, term: Term)
    requires |table| == TABLE_CAP && PathTaken(job, table, term, q) && Holds(job, table, s, term)
    ensures Dist(TABLE_CAP, job.home(term), s) >= Dist(TABLE_CAP, job.home(term), q)
  {
    assert Dist(TABLE_CAP, job.home(term), s) < Dist(TABLE_CAP, job.home(term), q) ==> TakenByOther(job, table, s, term);
  }

  // Exact: a term owns one slot.
  lemma OneSlot(job: Job, table: seq<nat>, s: nat, q: nat, term: Term)
    requires Sound(job) && TableOk(job, table) && Holds(job, table, s, term) && Holds(job, table, q, term)
    ensures s == q
  {
    hide LocStart, Loc, TermAt, Clean, PathTaken;
    assert SlotOk(job, table, s) && SlotOk(job, table, q);
    assert job.home(term) < TABLE_CAP;
    NotBefore(job, table, s, q, term);
    NotBefore(job, table, q, s, term);
  }

  // Slots are only ever filled.
  ghost predicate Grows(table: seq<nat>, table': seq<nat>) {
    |table| == |table'| && forall s :: 0 <= s < |table| && table[s] != 0 ==> table'[s] == table[s]
  }

  lemma PathKept(job: Job, table: seq<nat>, table': seq<nat>, term: Term, slot: nat)
    requires Grows(table, table') && PathTaken(job, table, term, slot)
    ensures PathTaken(job, table', term, slot)
  {
    hide SlotTerm, Dist;
    forall q | 0 <= q < TABLE_CAP && Dist(TABLE_CAP, job.home(term), q) < Dist(TABLE_CAP, job.home(term), slot)
      ensures TakenByOther(job, table', q, term)
    {
      assert TakenByOther(job, table, q, term);
    }
  }

  // The winning compare-and-swap.
  lemma FillSlot(job: Job, table: seq<nat>, slot: nat, i: nat)
    requires TableOk(job, table) && slot < TABLE_CAP && table[slot] == 0
    requires Clean(job.text, i) && PathTaken(job, table, TermAt(job.text, i), slot)
    ensures var table' := Put(table, slot, Loc(job.text, i));
            TableOk(job, table') && Grows(table, table') && Holds(job, table', slot, TermAt(job.text, i))
  {
    hide LocStart, Loc, TermAt, Clean, PathTaken;
    var table' := Put(table, slot, Loc(job.text, i));
    CleanStarts(job.text, i);
    LocParts(job.text, i);
    forall s | 0 <= s < TABLE_CAP && table'[s] != 0 ensures SlotOk(job, table', s) {
      if s == slot {
        PathKept(job, table, table', TermAt(job.text, i), slot);
      } else {
        assert SlotOk(job, table, s);
        PathKept(job, table, table', TermAt(job.text, LocStart(table[s])), s);
      }
    }
  }

  lemma CleanStarts(text: seq<byte>, i: nat)
    requires Clean(text, i)
    ensures StartsRun(text, i) && i < |text| && !Dirty(text, i)
  {
  }

  // The lost one, on a slot of another term.
  lemma PassSlot(job: Job, table: seq<nat>, term: Term, slot: nat)
    requires PathTaken(job, table, term, slot) && slot < TABLE_CAP && job.home(term) < TABLE_CAP
    requires TakenByOther(job, table, slot, term)
    ensures PathTaken(job, table, term, NextSlot(slot)) && NextSlot(slot) < TABLE_CAP
    ensures NextSlot(slot) == job.home(term) || Dist(TABLE_CAP, job.home(term), NextSlot(slot)) == Dist(TABLE_CAP, job.home(term), slot) + 1
  {
    hide TakenByOther;
    var home := job.home(term);
    forall q | 0 <= q < TABLE_CAP && Dist(TABLE_CAP, home, q) < Dist(TABLE_CAP, home, NextSlot(slot)) ensures TakenByOther(job, table, q, term) {
      if Dist(TABLE_CAP, home, q) >= Dist(TABLE_CAP, home, slot) {
        assert q == slot;
      }
    }
  }

  lemma PathStarts(job: Job, table: seq<nat>, term: Term)
    requires job.home(term) < TABLE_CAP
    ensures PathTaken(job, table, term, job.home(term))
  {
    hide TakenByOther;
  }
}
