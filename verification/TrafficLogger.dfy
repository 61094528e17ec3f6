/** pipeline/logging/traffic_logger.go: the logger's life cycle as a step relation over request
    handlers, the periodic flusher and closers. Each mutex-protected section is one atomic step. */
module TrafficLogger {
  import opened JsonLines

  type Entry = int

  /** The flusher goroutine: in its select, about to call Flush after a tick, or gone. */
  datatype Flusher = Selecting | Ticked | Stopped

  /** The one Close call that found the logger open. */
  datatype Closer = NotCalled | Marked | Waited | Returned

  datatype State = State(
    buffer: Bytes,          // the bufio.Writer
    file: Bytes,            // what this logger appended to its file
    closed: bool,           // and the flushStop channel, closed in the same section
    flusher: Flusher,
    closer: Closer,
    offered: seq<Entry>,    // history: every writeEntry call that took the lock
    logged: seq<Entry>)     // history: those that found the logger open

  ghost predicate Init(s: State) {
    && s.buffer == [] && s.file == [] && !s.closed && s.flusher == Selecting && s.closer == NotCalled
    && s.offered == [] && s.logged == []
  }

  // ---------- the steps ----------

  /** writeEntry: a closed logger writes nothing. */
  ghost predicate WriteEntry(marshal: Marshal<Entry>, s: State, s': State, x: Entry) {
    if s.closed then s' == s.(offered := s.offered + [x])
    else s' == s.(buffer := s.buffer + Line(marshal, x), offered := s.offered + [x], logged := s.logged + [x])
  }

  /** A full bufio.Writer moves some of its bytes to the file on its own. */
  ghost predicate Spill(s: State, s': State, n: nat) {
    && n <= |s.buffer| && !s.closed
    && s' == s.(file := s.file + s.buffer[..n], buffer := s.buffer[n..])
  }

  /** Flush: a closed logger is left to Close. */
  ghost predicate Flush(s: State, s': State) {
    s' == if s.closed then s else s.(file := s.file + s.buffer, buffer := [])
  }

  ghost predicate Tick(s: State, s': State) {
    s.flusher == Selecting && s' == s.(flusher := Ticked)
  }

  ghost predicate TickFlush(s: State, s': State) {
    s.flusher == Ticked && Flush(s.(flusher := Selecting), s')
  }

  /** The flusher sees flushStop closed, and closes flushDone on its way out. */
  ghost predicate SeeStop(s: State, s': State) {
    s.flusher == Selecting && s.closed && s' == s.(flusher := Stopped)
  }

  /** Close finds the logger open. A later Close returns without a step. */
  ghost predicate CloseMark(s: State, s': State) {
    s.closer == NotCalled && !s.closed && s' == s.(closed := true, closer := Marked)
  }

  ghost predicate CloseWait(s: State, s': State) {
    s.closer == Marked && s.flusher == Stopped && s' == s.(closer := Waited)
  }

  ghost predicate CloseReturn(s: State, s': State) {
    s.closer == Waited && s' == s.(file := s.file + s.buffer, buffer := [], closer := Returned)
  }

  ghost predicate Next(marshal: Marshal<Entry>, s: State, s': State) {
    || (exists x :: WriteEntry(marshal, s, s', x))
    || (exists n: nat :: Spill(s, s', n))
    || Flush(s, s') || Tick(s, s') || TickFlush(s, s') || SeeStop(s, s')
    || CloseMark(s, s') || CloseWait(s, s') || CloseReturn(s, s')
  }

  ghost predicate Behavior(marshal: Marshal<Entry>, run: seq<State>) {
    && run != [] && Init(run[0])
    && forall i :: 0 <= i < |run| - 1 ==> Next(marshal, run[i], run[i + 1])
  }

  // ---------- safety ----------

  ghost predicate Inv(marshal: Marshal<Entry>, s: State) {
    && s.file + s.buffer == Encoded(marshal, s.logged)
    && s.logged <= s.offered
    && (!s.closed ==> s.logged == s.offered)
    && (s.closed <==> s.closer != NotCalled)
    && (s.closer == Returned ==> s.buffer == [])
    && (s.flusher == Stopped ==> s.closed)
  }

  lemma WriteKeepsInv(marshal: Marshal<Entry>, s: State, s': State, x: Entry)
    requires Inv(marshal, s) && WriteEntry(marshal, s, s', x)
    ensures Inv(marshal, s')
  {
    hide Encoded, Line;
    EncodedAppend(marshal, s.logged, x);
    assert s.file + (s.buffer + Line(marshal, x)) == (s.file + s.buffer) + Line(marshal, x);
  }

  lemma SpillKeepsInv(marshal: Marshal<Entry>, s: State, s': State, n: nat)
    requires Inv(marshal, s) && Spill(s, s', n)
    ensures Inv(marshal, s')
  {
    hide Encoded;
    assert s'.file + s'.buffer == s.file + s.buffer;
  }

  lemma StepKeepsInv(marshal: Marshal<Entry>, s: State, s': State)
    requires Inv(marshal, s) && Next(marshal, s, s')
    ensures Inv(marshal, s')
  {
    hide Encoded, WriteEntry, Spill;
    if x :| WriteEntry(marshal, s, s', x) {
      WriteKeepsInv(marshal, s, s', x);
    } else if n: nat :| Spill(s, s', n) {
      SpillKeepsInv(marshal, s, s', n);
    }
  }

  /** In every interleaving, file and write buffer together are exactly the entries logged so far,
      in order, and an open logger has logged every entry it was given. */
  lemma {:induction false} EveryRunKeepsInv(marshal: Marshal<Entry>, run: seq<State>, i: nat)
    requires Behavior(marshal, run) && i < |run|
    ensures Inv(marshal, run[i])
    ensures OneLiners(marshal, run[i].logged) ==>
      Records(run[i].file + run[i].buffer) == (Outputs(marshal, run[i].logged), [])
  {
    if i == 0 {
    } else {
      EveryRunKeepsInv(marshal, run, i - 1);
      assert Next(marshal, run[i - 1], run[i]);
      StepKeepsInv(marshal, run[i - 1], run[i]);
    }
    if OneLiners(marshal, run[i].logged) {
      EncodedSplits(marshal, run[i].logged);
    }
  }

  /** Once the logger is closed nothing more is logged, and once Close has returned the file does
      not change any more. */
  lemma ClosedStaysClosed(marshal: Marshal<Entry>, run: seq<State>, i: nat)
    requires Behavior(marshal, run) && i + 1 < |run| && run[i].closed
    ensures run[i + 1].closed && run[i + 1].logged == run[i].logged
    ensures run[i].file + run[i].buffer == run[i + 1].file + run[i + 1].buffer
    ensures run[i].closer == Returned ==> run[i + 1].closer == Returned && run[i + 1].file == run[i].file
  {
    hide Encoded;
    EveryRunKeepsInv(marshal, run, i);
    assert Next(marshal, run[i], run[i + 1]);
  }

  lemma {:induction false} LoggedFixedSinceClosed(marshal: Marshal<Entry>, run: seq<State>, i: nat, j: nat)
    requires Behavior(marshal, run) && i <= j < |run| && run[i].closed
    ensures run[j].closed && run[j].logged == run[i].logged
  {
    if i == j {
    } else {
      LoggedFixedSinceClosed(marshal, run, i, j - 1);
      ClosedStaysClosed(marshal, run, j - 1);
    }
  }

  /** No entry written before the logger was marked closed is lost: if state i is the last open one
      and Close has returned at j, the file is exactly the entries offered up to i. */
  lemma CloseLosesNothing(marshal: Marshal<Entry>, run: seq<State>, i: nat, j: nat)
    requires Behavior(marshal, run) && i < j < |run|
    requires !run[i].closed && run[i + 1].closed && run[j].closer == Returned
    ensures run[j].file == Encoded(marshal, run[i].offered)
    ensures OneLiners(marshal, run[i].offered) ==> Records(run[j].file) == (Outputs(marshal, run[i].offered), [])
  {
    hide Encoded;
    EveryRunKeepsInv(marshal, run, i);
    EveryRunKeepsInv(marshal, run, j);
    LoggedFixedSinceClosed(marshal, run, i + 1, j);
    assert Next(marshal, run[i], run[i + 1]);
    assert run[j].file + [] == run[j].file;
    if OneLiners(marshal, run[i].offered) {
      EncodedSplits(marshal, run[i].offered);
    }
  }

  /** How many steps the flusher is from gone when its ticker is silent. */
  function Remaining(f: Flusher): nat {
    match f
    case Ticked => 2
    case Selecting => 1
    case Stopped => 0
  }

  /** Every step of the flusher other than seeing a tick brings it closer to its end. */
  lemma FlusherStepsFinish(s: State, s': State)
    requires TickFlush(s, s') || SeeStop(s, s')
    ensures Remaining(s'.flusher) < Remaining(s.flusher)
  {
  }

  /** After the mark, as many such steps as that are possible and end the flusher. */
  lemma FlusherCanStop(marshal: Marshal<Entry>, s: State) returns (path: seq<State>)
    requires Inv(marshal, s) && s.closed && s.flusher != Stopped
    ensures 1 <= |path| == Remaining(s.flusher) <= 2 && Next(marshal, s, path[0])
    ensures |path| == 2 ==> Next(marshal, path[0], path[1])
    ensures path[|path| - 1] == s.(flusher := Stopped)
  {
    var idle, gone := s.(flusher := Selecting), s.(flusher := Stopped);
    assert SeeStop(idle, gone);
    if s.flusher == Selecting {
      path := [gone];
    } else {
      assert TickFlush(s, idle);
      path := [idle, gone];
    }
  }
}
