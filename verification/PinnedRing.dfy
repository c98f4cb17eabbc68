// The pinned staging ring: the host fills a buffer, queues an asynchronous copy
// of it and records an event, and moves on to the next buffer; the device copies
// in order, at its own pace, byte by byte. Waiting for a buffer's event before
// filling it again is enough, for any chunk size and any depth.
module PinnedRing {
  import opened Bits
  import opened Machines

  datatype Upload = Upload(dst: nat, bytes: seq<byte>)

  // One chunk: the staging buffer it goes through and its place on the device.
  datatype Task = Task(buf: nat, dst: nat, data: seq<byte>)

  function ChunkEnd(u: Upload, chunk: nat, at: nat): (e: nat)
    ensures at < |u.bytes| && chunk > 0 ==> at < e <= |u.bytes|
  {
    if at + chunk < |u.bytes| then at + chunk else |u.bytes|
  }

  // The chunks of one upload from number i on; chunk i starts at i * chunk bytes.
  function ChunksFrom(u: Upload, chunk: nat, depth: nat, i: nat): seq<Task>
    requires chunk > 0 && depth > 0
    decreases |u.bytes| - Span(chunk, i)
  {
    var at := Span(chunk, i);
    if at >= |u.bytes| then []
    else
      assert Span(chunk, i + 1) == at + chunk;
      [Task(i % depth, u.dst + at, u.bytes[at..ChunkEnd(u, chunk, at)])] + ChunksFrom(u, chunk, depth, i + 1)
  }

  function AllChunks(uploads: seq<Upload>, chunk: nat, depth: nat): seq<Task>
    requires chunk > 0 && depth > 0
  {
    if uploads == [] then [] else ChunksFrom(uploads[0], chunk, depth, 0) + AllChunks(uploads[1..], chunk, depth)
  }

  // ----- the machine ------------------------------------------------------------------

  datatype Job = Job(tasks: seq<Task>, chunk: nat, depth: nat, device: seq<byte>)

  ghost predicate Sound(job: Job) {
    forall k :: 0 <= k < |job.tasks| ==>
      && job.tasks[k].buf < job.depth && |job.tasks[k].data| <= job.chunk
      && job.tasks[k].dst + |job.tasks[k].data| <= |job.device|
  }

  datatype Phase =
    | Wait             // event.synchronize()
    | Stage(j: nat)    // copy_nonoverlapping, byte j
    | Queue            // memcpy_htod_async
    | Record           // event.record(stream)

  // A queued copy reads its staging buffer when the device gets to it.
  datatype Copy = Copy(buf: nat, dst: nat, len: nat)

  // `head` copies are complete, `moved` bytes of the next one are; an event is
  // complete once the copies queued before its last record are.
  datatype Machine = Machine(task: nat, phase: Phase, bufs: seq<seq<byte>>, stream: seq<Copy>, head: nat, moved: nat,
                             recorded: seq<nat>, device: seq<byte>)

  function Start(job: Job, bufs: seq<seq<byte>>): Machine {
    Machine(0, Wait, bufs, [], 0, 0, seq(job.depth, b => 0), job.device)
  }

  function Current(job: Job, m: Machine): Task
    requires m.task < |job.tasks|
  {
    job.tasks[m.task]
  }

  predicate HostCanStep(job: Job, m: Machine) {
    && m.task < |job.tasks| && Current(job, m).buf < |m.recorded|
    && (m.phase.Wait? ==> m.recorded[Current(job, m).buf] <= m.head)
  }

  function HostStep(job: Job, m: Machine): Machine
    requires HostCanStep(job, m)
  {
    var t := Current(job, m);
    match m.phase
    case Wait => m.(phase := Stage(0))
    case Stage(j) =>
      if j < |t.data| then
        m.(phase := Stage(j + 1), bufs := Put(m.bufs, t.buf, if t.buf < |m.bufs| then Put(m.bufs[t.buf], j, t.data[j]) else []))
      else m.(phase := Queue)
    case Queue => m.(phase := Record, stream := m.stream + [Copy(t.buf, t.dst, |t.data|)])
    case Record => m.(phase := Wait, task := m.task + 1, recorded := Put(m.recorded, t.buf, |m.stream|))
  }

  predicate DeviceCanStep(m: Machine) { m.head < |m.stream| }

  function DeviceStep(m: Machine): Machine
    requires DeviceCanStep(m)
  {
    var c := m.stream[m.head];
    if m.moved < c.len then
      var x := if c.buf < |m.bufs| && m.moved < |m.bufs[c.buf]| then m.bufs[c.buf][m.moved] else 0;
      m.(device := Put(m.device, c.dst + m.moved, x), moved := m.moved + 1)
    else m.(head := m.head + 1, moved := 0)
  }

  ghost predicate Moves(job: Job, m: Machine, m': Machine) {
    (HostCanStep(job, m) && m' == HostStep(job, m)) || (DeviceCanStep(m) && m' == DeviceStep(m))
  }

  // Every chunk is queued and copied: the stream is synchronized.
  predicate Finished(job: Job, m: Machine) { m.task >= |job.tasks| && m.head >= |m.stream| }

  ghost predicate Buffers(job: Job, bufs: seq<seq<byte>>) {
    |bufs| == job.depth && forall b :: 0 <= b < job.depth ==> |bufs[b]| == job.chunk
  }

  ghost predicate IsRun(job: Job, bufs: seq<seq<byte>>, run: seq<Machine>) {
    && Buffers(job, bufs) && run != [] && run[0] == Start(job, bufs)
    && forall k :: 0 <= k < |run| - 1 ==> Moves(job, run[k], run[k + 1])
  }

  // ----- what the device should hold ------------------------------------------------------

  function Written(device: seq<byte>, at: nat, data: seq<byte>): (r: seq<byte>)
    ensures |r| == |device|
  {
    if at + |data| <= |device| then device[..at] + data + device[at + |data|..] else device
  }

  function Applied(device: seq<byte>, tasks: seq<Task>): (r: seq<byte>)
    ensures |r| == |device|
  {
    if tasks == [] then device
    else
      var last := tasks[|tasks| - 1];
      Written(Applied(device, tasks[..|tasks| - 1]), last.dst, last.data)
  }

  // ----- the invariant -----------------------------------------------------------------------

  ghost predicate Shape(job: Job, m: Machine) {
    && Buffers(job, m.bufs) && |m.recorded| == job.depth && |m.device| == |job.device|
    && m.task <= |job.tasks| && (!m.phase.Wait? ==> m.task < |job.tasks|)
    && |m.stream| == m.task + (if m.phase.Record? then 1 else 0)
    && m.head <= |m.stream| && m.moved <= (if m.head < |m.stream| then m.stream[m.head].len else 0)
    && (forall b :: 0 <= b < job.depth ==> m.recorded[b] <= |m.stream|)
  }

  // The stream is the tasks in order.
  ghost predicate InOrder(job: Job, m: Machine) {
    |m.stream| <= |job.tasks| &&
    forall k :: 0 <= k < |m.stream| ==>
      m.stream[k] == Copy(job.tasks[k].buf, job.tasks[k].dst, |job.tasks[k].data|)
  }

  // Every copy already left behind has its buffer's event recorded after it.
  ghost predicate Guarded(job: Job, m: Machine)
    requires Sound(job) && Shape(job, m)
  {
    forall k :: 0 <= k < m.task ==> k < m.recorded[job.tasks[k].buf]
  }

  // A copy still queued finds in its buffer what the host staged for it.
  ghost predicate Intact(job: Job, m: Machine)
    requires Sound(job) && Shape(job, m) && InOrder(job, m)
  {
    forall k :: m.head <= k < |m.stream| ==> m.bufs[job.tasks[k].buf][..|job.tasks[k].data|] == job.tasks[k].data
  }

  ghost predicate Staging(job: Job, m: Machine)
    requires Sound(job) && Shape(job, m)
  {
    match m.phase
    case Wait => true
    case Stage(j) =>
      var t := Current(job, m);
      j <= |t.data| && m.recorded[t.buf] <= m.head && m.bufs[t.buf][..j] == t.data[..j]
    case Queue =>
      var t := Current(job, m);
      m.recorded[t.buf] <= m.head && m.bufs[t.buf][..|t.data|] == t.data
    case Record => true
  }

  function Partly(job: Job, m: Machine): seq<byte>
    requires m.head <= |job.tasks|
  {
    var done := Applied(job.device, job.tasks[..m.head]);
    if m.head < |job.tasks| && m.moved <= |job.tasks[m.head].data| then
      Written(done, job.tasks[m.head].dst, job.tasks[m.head].data[..m.moved])
    else done
  }

  ghost predicate Inv(job: Job, m: Machine)
    requires Sound(job)
  {
    && Shape(job, m) && InOrder(job, m) && Guarded(job, m) && Intact(job, m) && Staging(job, m)
    && m.device == Partly(job, m)
  }

  // Safety: a buffer being filled is read by no queued copy.
  lemma NoOverwrite(job: Job, m: Machine, k: nat)
    requires Sound(job) && Inv(job, m) && m.phase.Stage? && m.head <= k < |m.stream|
    ensures m.stream[k].buf != Current(job, m).buf
  {
    assert k < m.task;
    assert k < m.recorded[job.tasks[k].buf];
  }

  lemma WrittenNothing(device: seq<byte>, at: nat)
    ensures Written(device, at, []) == device
  {
    if at <= |device| {
      assert device[..at] + device[at..] == device;
      assert device[..at] + [] == device[..at];
    }
  }

  lemma WrittenMore(device: seq<byte>, at: nat, data: seq<byte>, j: nat)
    requires j < |data| && at + |data| <= |device|
    ensures Put(Written(device, at, data[..j]), at + j, data[j]) == Written(device, at, data[..j + 1])
  {
    var a, b := Put(Written(device, at, data[..j]), at + j, data[j]), Written(device, at, data[..j + 1]);
    forall i | 0 <= i < |device| ensures a[i] == b[i] {
    }
  }

  lemma StartInv(job: Job, bufs: seq<seq<byte>>)
    requires Sound(job) && Buffers(job, bufs)
    ensures Inv(job, Start(job, bufs))
  {
    var m := Start(job, bufs);
    assert job.tasks[..0] == [];
    if |job.tasks| > 0 {
      assert job.tasks[0].data[..0] == [];
      WrittenNothing(job.device, job.tasks[0].dst);
    }
  }

  lemma HostInv(job: Job, m: Machine)
    requires Sound(job) && Inv(job, m) && HostCanStep(job, m)
    ensures Inv(job, HostStep(job, m))
  {
    hide Partly;
    var m' := HostStep(job, m);
    HostDevice(job, m);
    match m.phase
    case Stage(j) => StageInv(job, m);
    case _ =>
  }

  lemma HostDevice(job: Job, m: Machine)
    requires Sound(job) && Inv(job, m) && HostCanStep(job, m)
    ensures HostStep(job, m).head <= |job.tasks| && Partly(job, HostStep(job, m)) == Partly(job, m)
    ensures HostStep(job, m).device == m.device
  {
    hide Written, Applied;
  }

  lemma StageInv(job: Job, m: Machine)
    requires Sound(job) && Inv(job, m) && HostCanStep(job, m) && m.phase.Stage?
    ensures Shape(job, HostStep(job, m)) && Intact(job, HostStep(job, m)) && Staging(job, HostStep(job, m))
  {
    hide Partly;
    var m' := HostStep(job, m);
    var t := Current(job, m);
    forall k | m.head <= k < |m.stream|
      ensures m'.bufs[job.tasks[k].buf][..|job.tasks[k].data|] == job.tasks[k].data
    {
      NoOverwrite(job, m, k);
      assert m'.bufs[job.tasks[k].buf] == m.bufs[job.tasks[k].buf];
    }
    if m.phase.j < |t.data| {
      assert m'.bufs[t.buf][..m.phase.j + 1] == m.bufs[t.buf][..m.phase.j] + [t.data[m.phase.j]];
      assert t.data[..m.phase.j + 1] == t.data[..m.phase.j] + [t.data[m.phase.j]];
    } else {
      assert t.data[..|t.data|] == t.data;
    }
  }

  lemma DeviceInv(job: Job, m: Machine)
    requires Sound(job) && Inv(job, m) && DeviceCanStep(m)
    ensures Inv(job, DeviceStep(m))
  {
    hide Partly;
    DevicePartly(job, m);
  }

  lemma DevicePartly(job: Job, m: Machine)
    requires Sound(job) && Inv(job, m) && DeviceCanStep(m)
    ensures DeviceStep(m).head <= |job.tasks| && DeviceStep(m).device == Partly(job, DeviceStep(m))
  {
    hide Written, Applied;
    var t := job.tasks[m.head];
    var done := Applied(job.device, job.tasks[..m.head]);
    if m.moved < |t.data| {
      WrittenMore(done, t.dst, t.data, m.moved);
      assert m.bufs[t.buf][..|t.data|][m.moved] == t.data[m.moved];
    } else {
      assert t.data[..m.moved] == t.data;
      AppliedMore(job.device, job.tasks, m.head);
      if m.head + 1 < |job.tasks| {
        assert job.tasks[m.head + 1].data[..0] == [];
        WrittenNothing(Applied(job.device, job.tasks[..m.head + 1]), job.tasks[m.head + 1].dst);
      }
    }
  }

  lemma AppliedMore(device: seq<byte>, tasks: seq<Task>, k: nat)
    requires k < |tasks|
    ensures Applied(device, tasks[..k + 1]) == Written(Applied(device, tasks[..k]), tasks[k].dst, tasks[k].data)
  {
    assert tasks[..k + 1][..k] == tasks[..k];
  }

  lemma {:induction false} RunInv(job: Job, bufs: seq<seq<byte>>, run: seq<Machine>, k: nat)
    requires Sound(job) && IsRun(job, bufs, run) && k < |run|
    ensures Inv(job, run[k])
    decreases k
  {
    hide Inv, Start, HostStep, DeviceStep, HostCanStep, DeviceCanStep;
    if k == 0 {
      StartInv(job, bufs);
    } else {
      RunInv(job, bufs, run, k - 1);
      assert Moves(job, run[k - 1], run[k - 1 + 1]);
      if HostCanStep(job, run[k - 1]) && run[k] == HostStep(job, run[k - 1]) {
        HostInv(job, run[k - 1]);
      } else {
        DeviceInv(job, run[k - 1]);
      }
    }
  }

  // ----- the end ---------------------------------------------------------------------------------

  lemma FinalDevice(job: Job, m: Machine)
    requires Sound(job) && Inv(job, m) && Finished(job, m)
    ensures m.device == Applied(job.device, job.tasks)
  {
    hide Applied, Written;
    assert job.tasks[..|job.tasks|] == job.tasks;
  }

  // Work the host and the device still have with the tasks from k on.
  function HostWork(tasks: seq<Task>, k: nat): nat
    decreases |tasks| - k
  {
    if k >= |tasks| then 0 else |tasks[k].data| + 5 + HostWork(tasks, k + 1)
  }

  function DeviceWork(tasks: seq<Task>, k: nat): nat
    decreases |tasks| - k
  {
    if k >= |tasks| then 0 else |tasks[k].data| + 1 + DeviceWork(tasks, k + 1)
  }

  function PhaseDone(m: Machine, len: nat): nat {
    match m.phase case Wait => 0 case Stage(j) => 1 + j case Queue => 2 + len case Record => 3 + len
  }

  function Left(job: Job, m: Machine): int {
    HostWork(job.tasks, m.task) - (if m.task < |job.tasks| then PhaseDone(m, |Current(job, m).data|) else 0)
    + DeviceWork(job.tasks, m.head) - m.moved
  }

  lemma LeftPositive(job: Job, m: Machine)
    requires Sound(job) && Inv(job, m)
    ensures Left(job, m) >= 0
  {
    hide Partly, Applied;
  }

  // Neither side waits for ever: until everything is copied some step is possible,
  // and every step leaves less to do.
  lemma Progress(job: Job, m: Machine)
    requires Sound(job) && Inv(job, m)
    ensures !Finished(job, m) ==> HostCanStep(job, m) || DeviceCanStep(m)
    ensures HostCanStep(job, m) ==> Left(job, HostStep(job, m)) < Left(job, m)
    ensures DeviceCanStep(m) ==> Left(job, DeviceStep(m)) < Left(job, m)
  {
    hide Partly, Applied, Written;
  }

  lemma {:induction false} RunLeft(job: Job, bufs: seq<seq<byte>>, run: seq<Machine>, k: nat)
    requires Sound(job) && IsRun(job, bufs, run) && k < |run|
    ensures k + Left(job, run[k]) <= Left(job, run[0]) && Left(job, run[k]) >= 0
    decreases k
  {
    hide Inv, Start, HostStep, DeviceStep, HostCanStep, DeviceCanStep, Left, Sound;
    RunInv(job, bufs, run, k);
    LeftPositive(job, run[k]);
    if k > 0 {
      RunLeft(job, bufs, run, k - 1);
      RunInv(job, bufs, run, k - 1);
      assert Moves(job, run[k - 1], run[k - 1 + 1]);
      Progress(job, run[k - 1]);
    }
  }

  // Every run ends: its length is bounded by the chunks, and it can only stop where all
  // of them are copied.
  lemma RunsEnd(job: Job, bufs: seq<seq<byte>>, run: seq<Machine>)
    requires Sound(job) && IsRun(job, bufs, run)
    ensures |run| <= HostWork(job.tasks, 0) + DeviceWork(job.tasks, 0) + 1
    ensures !Finished(job, run[|run| - 1]) ==> exists m' :: IsRun(job, bufs, run + [m'])
  {
    hide Inv, HostStep, DeviceStep, HostCanStep, DeviceCanStep, Sound, Finished, HostWork, DeviceWork;
    RunLeft(job, bufs, run, |run| - 1);
    var last := run[|run| - 1];
    if !Finished(job, last) {
      RunInv(job, bufs, run, |run| - 1);
      Progress(job, last);
      var m' := if HostCanStep(job, last) then HostStep(job, last) else DeviceStep(last);
      assert Moves(job, last, m');
      var longer := run + [m'];
      forall k | 0 <= k < |longer| - 1 ensures Moves(job, longer[k], longer[k + 1]) {
        if k < |run| - 1 {
          assert longer[k] == run[k] && longer[k + 1] == run[k + 1];
        }
      }
      assert IsRun(job, bufs, longer);
    }
  }

  // ----- uploads ---------------------------------------------------------------------------------------

  function AppliedUploads(device: seq<byte>, uploads: seq<Upload>): seq<byte>
    decreases |uploads|
  {
    if uploads == [] then device
    else AppliedUploads(Written(device, uploads[0].dst, uploads[0].bytes), uploads[1..])
  }

  lemma {:induction false} AppliedAppend(device: seq<byte>, a: seq<Task>, b: seq<Task>)
    ensures Applied(device, a + b) == Applied(Applied(device, a), b)
    decreases |b|
  {
    hide Written;
    if b == [] {
      assert a + b == a;
    } else {
      assert (a + b)[..|a + b| - 1] == a + b[..|b| - 1];
      AppliedAppend(device, a, b[..|b| - 1]);
    }
  }

  lemma AppliedOne(device: seq<byte>, t: Task)
    ensures Applied(device, [t]) == Written(device, t.dst, t.data)
  {
    assert [t][..0] == [];
  }

  lemma WrittenJoin(device: seq<byte>, at: nat, a: seq<byte>, b: seq<byte>)
    requires at + |a| + |b| <= |device|
    ensures Written(Written(device, at, a), at + |a|, b) == Written(device, at, a + b)
  {
    var x, y := Written(Written(device, at, a), at + |a|, b), Written(device, at, a + b);
    forall i | 0 <= i < |device| ensures x[i] == y[i] {
    }
  }

  // The chunks from i on write the rest of the upload.
  lemma {:induction false} ChunksWrite(device: seq<byte>, u: Upload, chunk: nat, depth: nat, i: nat)
    requires chunk > 0 && depth > 0 && u.dst + |u.bytes| <= |device| && Span(chunk, i) <= |u.bytes|
    ensures Applied(Written(device, u.dst, u.bytes[..Span(chunk, i)]), ChunksFrom(u, chunk, depth, i)) ==
            Written(device, u.dst, u.bytes)
    decreases |u.bytes| - Span(chunk, i)
  {
    hide Written, Applied;
    var at := Span(chunk, i);
    var begun := Written(device, u.dst, u.bytes[..at]);
    if at == |u.bytes| {
      assert u.bytes[..at] == u.bytes;
      NothingApplied(begun);
    } else {
      var e := ChunkEnd(u, chunk, at);
      var t := Task(i % depth, u.dst + at, u.bytes[at..e]);
      AppliedAppend(begun, [t], ChunksFrom(u, chunk, depth, i + 1));
      AppliedOne(begun, t);
      WrittenJoin(device, u.dst, u.bytes[..at], u.bytes[at..e]);
      assert u.bytes[..at] + u.bytes[at..e] == u.bytes[..e];
      if e == at + chunk {
        ChunksWrite(device, u, chunk, depth, i + 1);
      } else {
        assert u.bytes[..e] == u.bytes && ChunksFrom(u, chunk, depth, i + 1) == [];
        NothingApplied(Written(device, u.dst, u.bytes));
      }
    }
  }

  lemma NothingApplied(device: seq<byte>)
    ensures Applied(device, []) == device
  {
  }

  lemma {:induction false} UploadsWrite(device: seq<byte>, uploads: seq<Upload>, chunk: nat, depth: nat)
    requires chunk > 0 && depth > 0
    requires forall j :: 0 <= j < |uploads| ==> uploads[j].dst + |uploads[j].bytes| <= |device|
    ensures Applied(device, AllChunks(uploads, chunk, depth)) == AppliedUploads(device, uploads)
    decreases |uploads|
  {
    hide Written, Applied, ChunksFrom;
    if uploads == [] {
      NothingApplied(device);
    } else {
      var u := uploads[0];
      AppliedAppend(device, ChunksFrom(u, chunk, depth, 0), AllChunks(uploads[1..], chunk, depth));
      assert u.bytes[..Span(chunk, 0)] == [];
      WrittenNothing(device, u.dst);
      ChunksWrite(device, u, chunk, depth, 0);
      UploadsWrite(Written(device, u.dst, u.bytes), uploads[1..], chunk, depth);
    }
  }

  lemma {:induction false} ChunksFit(u: Upload, chunk: nat, depth: nat, i: nat, size: nat)
    requires chunk > 0 && depth > 0 && u.dst + |u.bytes| <= size
    ensures forall k :: 0 <= k < |ChunksFrom(u, chunk, depth, i)| ==>
              var t := ChunksFrom(u, chunk, depth, i)[k];
              t.buf < depth && |t.data| <= chunk && t.dst + |t.data| <= size
    decreases |u.bytes| - Span(chunk, i)
  {
    if Span(chunk, i) < |u.bytes| {
      assert Span(chunk, i + 1) == Span(chunk, i) + chunk;
      ChunksFit(u, chunk, depth, i + 1, size);
    }
  }

  lemma {:induction false} AllChunksFit(uploads: seq<Upload>, chunk: nat, depth: nat, size: nat)
    requires chunk > 0 && depth > 0
    requires forall j :: 0 <= j < |uploads| ==> uploads[j].dst + |uploads[j].bytes| <= size
    ensures forall k :: 0 <= k < |AllChunks(uploads, chunk, depth)| ==>
              var t := AllChunks(uploads, chunk, depth)[k];
              t.buf < depth && |t.data| <= chunk && t.dst + |t.data| <= size
  {
    hide ChunksFrom;
    if uploads != [] {
      ChunksFit(uploads[0], chunk, depth, 0, size);
      AllChunksFit(uploads[1..], chunk, depth, size);
    }
  }

  // Any series of uploads through a ring of any depth, copied at any pace: once the
  // stream is synchronized the device holds them as if written one after the other.
  lemma UploadsArrive(uploads: seq<Upload>, chunk: nat, depth: nat, device: seq<byte>, bufs: seq<seq<byte>>, run: seq<Machine>)
    requires chunk > 0 && depth > 0
    requires forall j :: 0 <= j < |uploads| ==> uploads[j].dst + |uploads[j].bytes| <= |device|
    requires var job := Job(AllChunks(uploads, chunk, depth), chunk, depth, device);
             IsRun(job, bufs, run) && Finished(job, run[|run| - 1])
    ensures run[|run| - 1].device == AppliedUploads(device, uploads)
  {
    hide Inv, Applied, AppliedUploads, AllChunks, Finished;
    var job := Job(AllChunks(uploads, chunk, depth), chunk, depth, device);
    AllChunksFit(uploads, chunk, depth, |device|);
    RunInv(job, bufs, run, |run| - 1);
    FinalDevice(job, run[|run| - 1]);
    UploadsWrite(device, uploads, chunk, depth);
  }
}
