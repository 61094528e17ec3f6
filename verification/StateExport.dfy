/** core/inference/state_export.go: the asynchronous exporter as a step relation over its producers,
    bounded queue, worker, ticker and closers. Every mutex-protected section, channel operation and
    select decision is one atomic step. */
module StateExport {
  import opened JsonLines

  const QUEUE_CAPACITY: nat := 10000

  type Snapshot = int

  /** Where the worker goroutine is: in its outer select (or holding a snapshot from it), in the
      draining loop (or holding a snapshot from that), past its final look at the queue, or gone. */
  datatype Worker =
    | Selecting
    | Holding(snapshot: Snapshot)
    | Draining
    | HoldingLast(snapshot: Snapshot)
    | Drained
    | Exited

  /** Where the one Close call that found the exporter open is. */
  datatype Closer = NotCalled | Marked | Signalled | Waited | Returned

  datatype State = State(
    queue: seq<Snapshot>,
    buffer: Bytes,             // the bufio.Writer
    file: Bytes,               // what this exporter appended to its file
    worker: Worker,
    closed: bool,
    done: bool,                // the done channel is closed
    closer: Closer,
    dropped: nat,
    offered: seq<Snapshot>,    // history: every ExportSnapshot call
    accepted: seq<Snapshot>,   // history: what went into the queue
    written: seq<Snapshot>,    // history: what the worker wrote or skipped
    closedAt: nat,             // history: |accepted| when Close marked the exporter closed
    sealedAt: nat)             // history: |accepted| at the worker's final look at the queue

  ghost predicate Init(s: State) {
    && s.queue == [] && s.buffer == [] && s.worker == Selecting && !s.closed && !s.done && s.closer == NotCalled
    && s.dropped == 0 && s.offered == [] && s.accepted == [] && s.written == [] && s.file == []
    && s.closedAt == 0 && s.sealedAt == 0
  }

  // ---------- the steps ----------

  /** ExportSnapshot: enqueue, or drop when the queue is full. Producers may call it at any time. */
  ghost predicate Export(s: State, s': State, x: Snapshot) {
    if |s.queue| < QUEUE_CAPACITY then
      s' == s.(queue := s.queue + [x], accepted := s.accepted + [x], offered := s.offered + [x])
    else
      s' == s.(dropped := s.dropped + 1, offered := s.offered + [x])
  }

  /** The worker takes the oldest snapshot, from either of its two loops. */
  ghost predicate Receive(s: State, s': State) {
    && s.queue != [] && (s.worker == Selecting || s.worker == Draining)
    && s' == s.(queue := s.queue[1..],
                worker := if s.worker == Selecting then Holding(s.queue[0]) else HoldingLast(s.queue[0]))
  }

  /** The worker marshals and writes the snapshot it holds. */
  ghost predicate Write(marshal: Marshal<Snapshot>, s: State, s': State) {
    && (s.worker.Holding? || s.worker.HoldingLast?)
    && s' == s.(buffer := s.buffer + Line(marshal, s.worker.snapshot),
                written := s.written + [s.worker.snapshot],
                worker := if s.worker.Holding? then Selecting else Draining)
  }

  /** A full bufio.Writer moves some of its bytes to the file on its own. */
  ghost predicate Spill(s: State, s': State, n: nat) {
    && n <= |s.buffer| && s.closer != Returned
    && s' == s.(file := s.file + s.buffer[..n], buffer := s.buffer[n..])
  }

  /** The ticker case: flush. */
  ghost predicate Tick(s: State, s': State) {
    s.worker == Selecting && s' == s.(file := s.file + s.buffer, buffer := [])
  }

  /** The done case of the outer select. */
  ghost predicate SeeDone(s: State, s': State) {
    s.worker == Selecting && s.done && s' == s.(worker := Draining)
  }

  /** The default case of the draining loop: the queue was empty at this moment. */
  ghost predicate SeeEmpty(s: State, s': State) {
    s.worker == Draining && s.queue == [] && s' == s.(worker := Drained, sealedAt := |s.accepted|)
  }

  /** The worker's last flush and exit. */
  ghost predicate Exit(s: State, s': State) {
    s.worker == Drained && s' == s.(file := s.file + s.buffer, buffer := [], worker := Exited)
  }

  /** Close finds the exporter open and marks it closed. A later Close returns without a step. */
  ghost predicate CloseMark(s: State, s': State) {
    s.closer == NotCalled && !s.closed && s' == s.(closed := true, closer := Marked, closedAt := |s.accepted|)
  }

  ghost predicate CloseSignal(s: State, s': State) {
    s.closer == Marked && s' == s.(done := true, closer := Signalled)
  }

  /** wg.Wait returns once the worker is gone. */
  ghost predicate CloseWait(s: State, s': State) {
    s.closer == Signalled && s.worker == Exited && s' == s.(closer := Waited)
  }

  /** The final flush, and the file is closed. */
  ghost predicate CloseReturn(s: State, s': State) {
    s.closer == Waited && s' == s.(file := s.file + s.buffer, buffer := [], closer := Returned)
  }

  ghost predicate Next(marshal: Marshal<Snapshot>, s: State, s': State) {
    || (exists x :: Export(s, s', x))
    || Receive(s, s')
    || Write(marshal, s, s')
    || (exists n: nat :: Spill(s, s', n))
    || Tick(s, s') || SeeDone(s, s') || SeeEmpty(s, s') || Exit(s, s')
    || CloseMark(s, s') || CloseSignal(s, s') || CloseWait(s, s') || CloseReturn(s, s')
  }

  /** An interleaving: any finite sequence of steps from an initial state. */
  ghost predicate Behavior(marshal: Marshal<Snapshot>, run: seq<State>) {
    && run != [] && Init(run[0])
    && forall i :: 0 <= i < |run| - 1 ==> Next(marshal, run[i], run[i + 1])
  }

  // ---------- invariant ----------

  function InHand(w: Worker): seq<Snapshot> {
    if w.Holding? || w.HoldingLast? then [w.snapshot] else []
  }

  ghost predicate Conserved(marshal: Marshal<Snapshot>, s: State) {
    && s.file + s.buffer == Encoded(marshal, s.written)
    && s.written + InHand(s.worker) + s.queue == s.accepted
    && |s.offered| == |s.accepted| + s.dropped
    && |s.queue| <= 10000
  }

  ghost predicate Phases(s: State) {
    && (s.closed <==> s.closer != NotCalled)
    && (s.done <==> s.closer.Signalled? || s.closer.Waited? || s.closer.Returned?)
    && (s.worker.Draining? || s.worker.HoldingLast? || s.worker.Drained? || s.worker.Exited? ==> s.done)
    && (s.closer.Waited? || s.closer.Returned? ==> s.worker.Exited? && s.buffer == [])
    && (s.worker.Exited? ==> s.buffer == [])
    && (s.closed ==> s.closedAt <= |s.accepted|)
    && (s.worker.Drained? || s.worker.Exited? ==>
          s.closedAt <= s.sealedAt == |s.written| <= |s.accepted|)
  }

  ghost predicate Inv(marshal: Marshal<Snapshot>, s: State) {
    Conserved(marshal, s) && Phases(s)
  }

  lemma ExportKeepsInv(marshal: Marshal<Snapshot>, s: State, s': State, x: Snapshot)
    requires Inv(marshal, s) && Export(s, s', x)
    ensures Inv(marshal, s')
  {
    assert s.written + InHand(s.worker) + (s.queue + [x]) == s.accepted + [x] by {
      assert s.written + InHand(s.worker) + (s.queue + [x]) == (s.written + InHand(s.worker) + s.queue) + [x];
    }
  }

  lemma ReceiveKeepsInv(marshal: Marshal<Snapshot>, s: State, s': State)
    requires Inv(marshal, s) && Receive(s, s')
    ensures Inv(marshal, s')
  {
    hide Encoded;
    assert s.queue == [s.queue[0]] + s.queue[1..];
    assert s.written + [s.queue[0]] + s.queue[1..] == s.written + [] + s.queue;
  }

  lemma WriteKeepsInv(marshal: Marshal<Snapshot>, s: State, s': State)
    requires Inv(marshal, s) && Write(marshal, s, s')
    ensures Inv(marshal, s')
  {
    hide Encoded, Line;
    EncodedAppend(marshal, s.written, s.worker.snapshot);
    assert s.file + s'.buffer == (s.file + s.buffer) + Line(marshal, s.worker.snapshot);
  }

  lemma SpillKeepsInv(marshal: Marshal<Snapshot>, s: State, s': State, n: nat)
    requires Inv(marshal, s) && Spill(s, s', n)
    ensures Inv(marshal, s')
  {
    hide Encoded;
    assert s'.file + s'.buffer == s.file + s.buffer;
  }

  lemma FlushKeepsInv(marshal: Marshal<Snapshot>, s: State, s': State)
    requires Inv(marshal, s) && (Tick(s, s') || Exit(s, s') || CloseReturn(s, s'))
    ensures Inv(marshal, s')
  {
    hide Encoded;
  }

  lemma ControlKeepsInv(marshal: Marshal<Snapshot>, s: State, s': State)
    requires Inv(marshal, s)
    requires SeeDone(s, s') || SeeEmpty(s, s') || CloseMark(s, s') || CloseSignal(s, s') || CloseWait(s, s')
    ensures Inv(marshal, s')
  {
    hide Encoded;
  }

  lemma StepKeepsInv(marshal: Marshal<Snapshot>, s: State, s': State)
    requires Inv(marshal, s) && Next(marshal, s, s')
    ensures Inv(marshal, s')
  {
    hide Inv, Export, Receive, Write, Spill, Tick, Exit, CloseReturn;
    hide SeeDone, SeeEmpty, CloseMark, CloseSignal, CloseWait;
    if x :| Export(s, s', x) {
      ExportKeepsInv(marshal, s, s', x);
    } else if Receive(s, s') {
      ReceiveKeepsInv(marshal, s, s');
    } else if Write(marshal, s, s') {
      WriteKeepsInv(marshal, s, s');
    } else if n: nat :| Spill(s, s', n) {
      SpillKeepsInv(marshal, s, s', n);
    } else if Tick(s, s') || Exit(s, s') || CloseReturn(s, s') {
      FlushKeepsInv(marshal, s, s');
    } else {
      ControlKeepsInv(marshal, s, s');
    }
  }

  /** Conservation and FIFO in every interleaving: what is in the file and the write buffer is the
      encoding of a prefix of the accepted snapshots, followed by the one in hand and the queue;
      and every offered snapshot was accepted or counted as dropped. */
  lemma {:induction false} EveryRunConserves(marshal: Marshal<Snapshot>, run: seq<State>, i: nat)
    requires Behavior(marshal, run) && i < |run|
    ensures Inv(marshal, run[i])
    ensures OneLiners(marshal, run[i].written) ==>
      Records(run[i].file + run[i].buffer) == (Outputs(marshal, run[i].written), [])
  {
    if i == 0 {
    } else {
      EveryRunConserves(marshal, run, i - 1);
      assert Next(marshal, run[i - 1], run[i]);
      StepKeepsInv(marshal, run[i - 1], run[i]);
    }
    if OneLiners(marshal, run[i].written) {
      EncodedSplits(marshal, run[i].written);
    }
  }

  // ---------- what Close guarantees ----------

  /** When Close has returned, the file holds every snapshot accepted up to the worker's final look
      at the queue, in order, and exactly the ones enqueued after it are left in the queue. In
      particular nothing accepted before Close is missing. */
  lemma CloseGuarantee(marshal: Marshal<Snapshot>, run: seq<State>, i: nat)
    requires Behavior(marshal, run) && i < |run| && run[i].closer == Returned
    ensures var s := run[i];
      && s.closedAt <= s.sealedAt <= |s.accepted|
      && s.file == Encoded(marshal, s.accepted[..s.sealedAt])
      && (OneLiners(marshal, s.accepted[..s.sealedAt]) ==>
            Records(s.file) == (Outputs(marshal, s.accepted[..s.sealedAt]), []))
      && s.queue == s.accepted[s.sealedAt..]
  {
    EveryRunConserves(marshal, run, i);
    var s := run[i];
    assert s.file + s.buffer == s.file;
    assert s.accepted == s.written + s.queue;
  }

  /** If the producers stopped before Close, the file holds everything that was accepted. */
  lemma QuietCloseLosesNothing(marshal: Marshal<Snapshot>, run: seq<State>, i: nat)
    requires Behavior(marshal, run) && i < |run| && run[i].closer == Returned
    requires |run[i].accepted| == run[i].closedAt
    ensures run[i].file == Encoded(marshal, run[i].accepted) && run[i].queue == []
    ensures OneLiners(marshal, run[i].accepted) ==> Records(run[i].file) == (Outputs(marshal, run[i].accepted), [])
  {
    CloseGuarantee(marshal, run, i);
    assert run[i].accepted[..run[i].sealedAt] == run[i].accepted;
  }

  lemma Extend(marshal: Marshal<Snapshot>, run: seq<State>, s: State)
    requires Behavior(marshal, run) && Next(marshal, run[|run| - 1], s)
    ensures Behavior(marshal, run + [s])
  {
    hide Next;
    var longer := run + [s];
    forall i | 0 <= i < |longer| - 1 ensures Next(marshal, longer[i], longer[i + 1]) {
      assert i < |run| - 1 ==> longer[i] == run[i] && longer[i + 1] == run[i + 1];
    }
  }

  /** The worker has looked at the queue for the last time before anybody exported anything. */
  lemma EarlyLook(marshal: Marshal<Snapshot>) returns (run: seq<State>)
    ensures Behavior(marshal, run)
    ensures run[|run| - 1] == State([], [], [], Drained, true, true, Signalled, 0, [], [], [], 0, 0)
  {
    var s0 := State([], [], [], Selecting, false, false, NotCalled, 0, [], [], [], 0, 0);
    var s1 := s0.(closed := true, closer := Marked);
    var s2 := s1.(done := true, closer := Signalled);
    var s3 := s2.(worker := Draining);
    assert Behavior(marshal, [s0]);
    assert CloseMark(s0, s1) && CloseSignal(s1, s2) && SeeDone(s2, s3) && SeeEmpty(s3, s3.(worker := Drained));
    Extend(marshal, [s0], s1);
    Extend(marshal, [s0, s1], s2);
    Extend(marshal, [s0, s1, s2], s3);
    Extend(marshal, [s0, s1, s2, s3], s3.(worker := Drained));
    assert [s0] + [s1] == [s0, s1] && [s0, s1] + [s2] == [s0, s1, s2] && [s0, s1, s2] + [s3] == [s0, s1, s2, s3];
    run := [s0, s1, s2, s3] + [s3.(worker := Drained)];
  }

  /** Producers come in after that. */
  lemma {:induction false} LateExports(marshal: Marshal<Snapshot>, late: seq<Snapshot>) returns (run: seq<State>)
    requires |late| <= QUEUE_CAPACITY
    ensures Behavior(marshal, run)
    ensures run[|run| - 1] == State(late, [], [], Drained, true, true, Signalled, 0, late, late, [], 0, 0)
  {
    if late == [] {
      run := EarlyLook(marshal);
    } else {
      run := LateExports(marshal, late[..|late| - 1]);
      var s := State(late, [], [], Drained, true, true, Signalled, 0, late, late, [], 0, 0);
      assert late == late[..|late| - 1] + [late[|late| - 1]];
      assert Export(run[|run| - 1], s, late[|late| - 1]);
      Extend(marshal, run, s);
      run := run + [s];
    }
  }

  /** Late snapshots are lost without a trace: for any list of them that fits into the queue, some run
      accepts exactly these, returns from Close with an empty file, and has counted none as dropped. */
  lemma LateSnapshotsAreLost(marshal: Marshal<Snapshot>, late: seq<Snapshot>) returns (run: seq<State>)
    requires |late| <= 10000
    ensures Behavior(marshal, run)
    ensures var s := run[|run| - 1];
      s.closer == Returned && s.offered == s.accepted == s.queue == late && s.file == [] && s.dropped == 0
  {
    run := LateExports(marshal, late);
    var s := run[|run| - 1];
    var s1 := s.(worker := Exited);
    var s2 := s1.(closer := Waited);
    var s3 := s2.(closer := Returned);
    assert Exit(s, s1) && CloseWait(s1, s2) && CloseReturn(s2, s3);
    Extend(marshal, run, s1);
    Extend(marshal, run + [s1], s2);
    Extend(marshal, run + [s1] + [s2], s3);
    run := run + [s1] + [s2] + [s3];
  }

  lemma StepGrows(marshal: Marshal<Snapshot>, s: State, s': State)
    requires Next(marshal, s, s')
    ensures s.accepted <= s'.accepted && s.file <= s'.file
  {
    hide Line;
  }

  lemma StepKeepsMarks(marshal: Marshal<Snapshot>, s: State, s': State)
    requires Next(marshal, s, s') && Phases(s)
    ensures s.closed ==> s'.closed && s'.closedAt == s.closedAt
    ensures s.worker.Exited? ==> s'.worker.Exited? && s'.sealedAt == s.sealedAt
    ensures s.closer == Returned ==> s'.closer == Returned && s'.file == s.file
  {
    hide Line;
  }

  /** The history variables record what their names say: accepted only grows, and closedAt and
      sealedAt are fixed once set. */
  lemma HistoriesGrow(marshal: Marshal<Snapshot>, run: seq<State>, i: nat)
    requires Behavior(marshal, run) && i + 1 < |run|
    ensures run[i].accepted <= run[i + 1].accepted && run[i].file <= run[i + 1].file
    ensures run[i].closed ==> run[i + 1].closed && run[i + 1].closedAt == run[i].closedAt
    ensures run[i].worker.Exited? ==> run[i + 1].worker.Exited? && run[i + 1].sealedAt == run[i].sealedAt
    ensures run[i].closer == Returned ==> run[i + 1].closer == Returned && run[i + 1].file == run[i].file
  {
    hide Next, Conserved, Phases;
    EveryRunConserves(marshal, run, i);
    StepGrows(marshal, run[i], run[i + 1]);
    StepKeepsMarks(marshal, run[i], run[i + 1]);
  }

  /** Every step of the worker itself, other than a flush on a tick, brings it closer to its exit; only new
      snapshots set it back. */
  lemma WorkerStepsFinish(marshal: Marshal<Snapshot>, s: State, s': State)
    requires Receive(s, s') || Write(marshal, s, s') || SeeDone(s, s') || SeeEmpty(s, s') || Exit(s, s')
    ensures Remaining(s') < Remaining(s)
  {
    hide Line;
  }

  /** While Close waits, the worker always has such a step. */
  lemma WorkerCanFinish(marshal: Marshal<Snapshot>, s: State) returns (s': State)
    requires Inv(marshal, s) && s.closer == Signalled && !s.worker.Exited?
    ensures Next(marshal, s, s') && s'.closer == Signalled && s'.accepted == s.accepted
    ensures Remaining(s') < Remaining(s)
  {
    match s.worker
    case Selecting =>
      s' := s.(worker := Draining);
      assert SeeDone(s, s');
    case Holding(x) =>
      s' := s.(buffer := s.buffer + Line(marshal, x), written := s.written + [x], worker := Selecting);
      assert Write(marshal, s, s');
    case HoldingLast(x) =>
      s' := s.(buffer := s.buffer + Line(marshal, x), written := s.written + [x], worker := Draining);
      assert Write(marshal, s, s');
    case Draining =>
      if s.queue == [] {
        s' := s.(worker := Drained, sealedAt := |s.accepted|);
        assert SeeEmpty(s, s');
      } else {
        s' := s.(queue := s.queue[1..], worker := HoldingLast(s.queue[0]));
        assert Receive(s, s');
      }
    case Drained =>
      s' := s.(file := s.file + s.buffer, buffer := [], worker := Exited);
      assert Exit(s, s');
  }

  /** How many worker steps are left before its exit when no more snapshots arrive. */
  function Remaining(s: State): nat {
    2 * |s.queue| +
    match s.worker
    case Holding(_) => 4
    case Selecting => 3
    case HoldingLast(_) => 3
    case Draining => 2
    case Drained => 1
    case Exited => 0
  }
}
