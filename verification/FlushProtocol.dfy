/** The two phases of flush_to_sqlite in forecasting/state_store.py, when several threads flush at once:
    a flush takes the unflushed states under the lock and inserts them after releasing it. States are
    named by their position in the append order. */
module FlushProtocol {

  datatype Flow = Flow(appended: nat, unflushed: seq<nat>, taken: seq<seq<nat>>, rows: seq<nat>)

  const EMPTY := Flow(0, [], [], [])

  datatype Step = Append | Take | Insert(batch: nat)

  predicate Enabled(f: Flow, step: Step) {
    match step
    case Append => true
    case Take => f.unflushed != []
    case Insert(k) => k < |f.taken|
  }

  /** One atomic step: an append, a flush emptying the unflushed list, or some flush in flight committing
      its insert. */
  function Next(f: Flow, step: Step): Flow
    requires Enabled(f, step)
  {
    match step
    case Append => f.(appended := f.appended + 1, unflushed := f.unflushed + [f.appended])
    case Take => f.(unflushed := [], taken := f.taken + [f.unflushed])
    case Insert(k) => f.(taken := f.taken[..k] + f.taken[k + 1..], rows := f.rows + f.taken[k])
  }

  /** A run is a list of steps, each possible when it is taken. */
  predicate Legal(steps: seq<Step>)
    decreases |steps|, 0
  {
    steps == [] || (Legal(steps[..|steps| - 1]) && Enabled(Run(steps[..|steps| - 1]), steps[|steps| - 1]))
  }

  function Run(steps: seq<Step>): Flow
    requires Legal(steps)
    decreases |steps|, 1
  {
    if steps == [] then EMPTY else Next(Run(steps[..|steps| - 1]), steps[|steps| - 1])
  }

  function Concat(batches: seq<seq<nat>>): seq<nat> {
    if batches == [] then [] else Concat(batches[..|batches| - 1]) + batches[|batches| - 1]
  }

  lemma {:induction false} ConcatAppend(a: seq<seq<nat>>, b: seq<seq<nat>>)
    ensures Concat(a + b) == Concat(a) + Concat(b)
  {
    if b == [] {
      assert a + b == a;
    } else {
      ConcatAppend(a, b[..|b| - 1]);
      assert (a + b)[..|a + b| - 1] == a + b[..|b| - 1];
      assert Concat(a) + (Concat(b[..|b| - 1]) + b[|b| - 1]) == (Concat(a) + Concat(b[..|b| - 1])) + b[|b| - 1];
    }
  }

  lemma ConcatSplit(batches: seq<seq<nat>>, k: nat)
    requires k < |batches|
    ensures Concat(batches) == Concat(batches[..k]) + batches[k] + Concat(batches[k + 1..])
  {
    var front := batches[..k + 1];
    assert batches == front + batches[k + 1..];
    ConcatAppend(front, batches[k + 1..]);
    assert front[..k] == batches[..k];
  }

  lemma ConcatNothing(batches: seq<seq<nat>>)
    requires |batches| == 0
    ensures Concat(batches) == []
  {
  }

  function UpTo(n: nat): (r: seq<nat>)
    ensures |r| == n && forall i :: 0 <= i < n ==> r[i] == i
  {
    seq(n, i => i)
  }

  predicate Increasing(s: seq<nat>) {
    forall i, j :: 0 <= i < j < |s| ==> s[i] < s[j]
  }

  function Waiting(f: Flow): seq<nat> {
    Concat(f.taken) + f.unflushed
  }

  /** What every interleaving keeps: each appended state is in exactly one place, and what is not yet in
      the table still lies in append order. */
  ghost predicate Inv(f: Flow) {
    && multiset(f.rows) + multiset(Waiting(f)) == multiset(UpTo(f.appended))
    && Increasing(Waiting(f))
    && (forall k :: 0 <= k < |f.taken| ==> f.taken[k] != [])
    && (forall i :: 0 <= i < |f.unflushed| ==> f.unflushed[i] < f.appended)
  }

  lemma WaitingBounded(f: Flow, i: nat)
    requires Inv(f) && i < |Waiting(f)|
    ensures Waiting(f)[i] < f.appended
  {
    assert Waiting(f)[i] in multiset(Waiting(f));
    assert Waiting(f)[i] in multiset(UpTo(f.appended));
    assert Waiting(f)[i] in UpTo(f.appended);
  }

  lemma AppendKeepsInv(f: Flow)
    requires Inv(f)
    ensures Inv(Next(f, Append))
  {
    hide Concat, Increasing;
    var g := Next(f, Append);
    var waiting, n := Waiting(f), f.appended;
    forall i | 0 <= i < |waiting| ensures waiting[i] < n {
      WaitingBounded(f, i);
    }
    assert Waiting(g) == waiting + [n];
    IncreasingPush(waiting, n);
    assert UpTo(g.appended) == UpTo(n) + [n];
    assert multiset(waiting + [n]) == multiset(waiting) + multiset{n};
  }

  lemma IncreasingPush(s: seq<nat>, x: nat)
    requires Increasing(s) && forall i :: 0 <= i < |s| ==> s[i] < x
    ensures Increasing(s + [x])
  {
  }

  lemma InsertMovesBatch(f: Flow, k: nat) returns (before: seq<nat>, after: seq<nat>)
    requires k < |f.taken|
    ensures Waiting(f) == before + f.taken[k] + after
    ensures Waiting(Next(f, Insert(k))) == before + after
    ensures Next(f, Insert(k)).rows == f.rows + f.taken[k]
    ensures before == Concat(f.taken[..k])
  {
    hide Concat;
    ConcatSplit(f.taken, k);
    ConcatAppend(f.taken[..k], f.taken[k + 1..]);
    before, after := Concat(f.taken[..k]), Concat(f.taken[k + 1..]) + f.unflushed;
  }

  lemma InsertKeepsInv(f: Flow, k: nat)
    requires Inv(f) && k < |f.taken|
    ensures Inv(Next(f, Insert(k)))
  {
    hide Concat, Waiting;
    var before, after := InsertMovesBatch(f, k);
    IncreasingWithout(before, f.taken[k], after);
  }

  lemma StepKeepsInv(f: Flow, step: Step)
    requires Inv(f) && Enabled(f, step)
    ensures Inv(Next(f, step))
  {
    match step
    case Append => AppendKeepsInv(f);
    case Take => TakeKeepsWaiting(f);
    case Insert(k) => InsertKeepsInv(f, k);
  }

  lemma TakeKeepsWaiting(f: Flow)
    ensures Concat(f.taken + [f.unflushed]) + [] == Waiting(f)
  {
    ConcatAppend(f.taken, [f.unflushed]);
    assert [f.unflushed][..0] == [];
    assert Concat([f.unflushed]) == [] + f.unflushed;
  }

  lemma IncreasingWithout(a: seq<nat>, b: seq<nat>, c: seq<nat>)
    requires Increasing(a + b + c)
    ensures Increasing(a + c)
  {
    forall i, j | 0 <= i < j < |a + c| ensures (a + c)[i] < (a + c)[j] {
      var p, q := if i < |a| then i else i + |b|, if j < |a| then j else j + |b|;
      assert (a + c)[i] == (a + b + c)[p] && (a + c)[j] == (a + b + c)[q];
    }
  }

  lemma {:induction false} EveryRunKeepsInv(steps: seq<Step>)
    requires Legal(steps)
    ensures Inv(Run(steps))
  {
    if steps == [] {
    } else {
      EveryRunKeepsInv(steps[..|steps| - 1]);
      StepKeepsInv(Run(steps[..|steps| - 1]), steps[|steps| - 1]);
    }
  }

  /** Once all flushes have finished, every appended state is in the table exactly once. */
  lemma PersistedOnce(steps: seq<Step>)
    requires Legal(steps) && Run(steps).taken == [] && Run(steps).unflushed == []
    ensures multiset(Run(steps).rows) == multiset(UpTo(Run(steps).appended))
  {
    EveryRunKeepsInv(steps);
    assert Waiting(Run(steps)) == [];
  }

  lemma Continue(steps: seq<Step>, step: Step)
    requires Legal(steps) && Enabled(Run(steps), step)
    ensures Legal(steps + [step]) && Run(steps + [step]) == Next(Run(steps), step)
  {
    assert (steps + [step])[..|steps|] == steps;
  }

  /** From everywhere the flushes can finish: one more flush and the inserts still owed persist every state
      appended so far. */
  lemma {:induction false} CanPersistAll(steps: seq<Step>) returns (more: seq<Step>)
    requires Legal(steps)
    ensures Legal(steps + more)
    ensures |more| == |Run(steps).taken| + if Run(steps).unflushed == [] then 0 else 2
    ensures var f := Run(steps + more);
      && f.appended == Run(steps).appended && f.taken == [] && f.unflushed == []
      && multiset(f.rows) == multiset(UpTo(f.appended))
    decreases |Run(steps).taken| + if Run(steps).unflushed == [] then 0 else 2
  {
    hide Legal, Run;
    var f := Run(steps);
    more := [];
    if f.unflushed == [] && f.taken == [] {
      assert steps + more == steps;
      PersistedOnce(steps);
    } else {
      var step := if f.unflushed != [] then Take else Insert(0);
      Continue(steps, step);
      var rest := CanPersistAll(steps + [step]);
      more := [step] + rest;
      assert steps + more == (steps + [step]) + rest;
    }
  }

  /** Two overlapping flushes can commit the wrong way round. */
  lemma SomeFlushOvertakes()
    ensures Legal([Append, Take, Append, Take, Insert(1)])
    ensures Run([Append, Take, Append, Take, Insert(1)]) == Flow(2, [], [[0]], [1])
  {
    hide Legal, Run;
    RunNothing();
    Continue([], Append);
    assert [] + [Append] == [Append] && [] + [0] == [0];
    Continue([Append], Take);
    assert [Append] + [Take] == [Append, Take];
    Continue([Append, Take], Append);
    assert [Append, Take] + [Append] == [Append, Take, Append] && [] + [1] == [1];
    Continue([Append, Take, Append], Take);
    assert [Append, Take, Append] + [Take] == [Append, Take, Append, Take] && [[0]] + [[1]] == [[0], [1]];
    Continue([Append, Take, Append, Take], Insert(1));
    assert [Append, Take, Append, Take] + [Insert(1)] == [Append, Take, Append, Take, Insert(1)];
    assert [[0], [1]][..1] + [[0], [1]][2..] == [[0]] && [] + [1] == [1];
  }

  lemma RunNothing()
    ensures Legal([]) && Run([]) == EMPTY
  {
  }

  /** Flushes commit in the order in which they took their states. */
  predicate Fifo(steps: seq<Step>) {
    forall i :: 0 <= i < |steps| ==> !Overtakes(steps[i])
  }

  predicate Overtakes(step: Step) {
    step.Insert? && step.batch != 0
  }

  ghost predicate Inverted(f: Flow, i: nat, j: nat) {
    i < j < |f.rows + Waiting(f)| && i < |f.rows| && (f.rows + Waiting(f))[i] > (f.rows + Waiting(f))[j]
  }

  lemma FifoStepKeepsOrder(f: Flow, step: Step)
    requires Enabled(f, step) && !Overtakes(step)
    requires f.rows + Waiting(f) == UpTo(f.appended)
    ensures Next(f, step).rows + Waiting(Next(f, step)) == UpTo(Next(f, step).appended)
  {
    hide Concat;
    var g := Next(f, step);
    match step
    case Append =>
      assert Waiting(g) == Waiting(f) + [f.appended];
      assert g.rows + Waiting(g) == (f.rows + Waiting(f)) + [f.appended];
      assert UpTo(g.appended) == UpTo(f.appended) + [f.appended];
    case Take =>
      TakeKeepsWaiting(f);
    case Insert(k) =>
      var before, after := InsertMovesBatch(f, 0);
      ConcatNothing(f.taken[..0]);
      assert g.rows + Waiting(g) == f.rows + Waiting(f);
  }

  /** An overtaking insert leaves the overtaken batch behind it, out of order. */
  lemma OvertakingInverts(f: Flow, k: nat)
    requires Inv(f) && 0 < k < |f.taken|
    ensures Inverted(Next(f, Insert(k)), |f.rows|, |f.rows| + |f.taken[k]|)
  {
    var g := Next(f, Insert(k));
    var before, after := InsertMovesBatch(f, k);
    ConcatSplit(f.taken[..k], 0);
    assert f.taken[..k][..0] == [];
    assert before[0] == f.taken[0][0];
    assert Waiting(f)[0] == before[0] && Waiting(f)[|before|] == f.taken[k][0];
    assert Waiting(g)[0] == before[0];
  }

  lemma NothingWaits()
    ensures EMPTY.rows + Waiting(EMPTY) == UpTo(EMPTY.appended)
  {
  }

  lemma StepKeepsInversion(f: Flow, step: Step, i: nat, j: nat) returns (q: nat)
    requires Enabled(f, step) && Inverted(f, i, j)
    ensures Inverted(Next(f, step), i, q)
  {
    hide Concat;
    var g, all := Next(f, step), f.rows + Waiting(f);
    q := j;
    match step
    case Append =>
      assert g.rows + Waiting(g) == all + [f.appended];
    case Take =>
      TakeKeepsWaiting(f);
    case Insert(k) =>
      var a, c := InsertMovesBatch(f, k);
      var b := f.taken[k];
      assert all == f.rows + a + b + c && g.rows + Waiting(g) == f.rows + b + a + c;
      var n := |f.rows|;
      if n <= j < n + |a| {
        q := j + |b|;
      } else if n + |a| <= j < n + |a| + |b| {
        q := j - |a|;
      }
      assert (f.rows + b + a + c)[q] == (f.rows + a + b + c)[j];
  }

  /** Table, flushes in flight and unflushed states lie in append order exactly when no insert overtook
      an earlier one; a table that was once overtaken stays out of order for good. */
  lemma {:induction false} InOrderExactly(steps: seq<Step>)
    requires Legal(steps)
    ensures var f := Run(steps); Fifo(steps) <==> f.rows + Waiting(f) == UpTo(f.appended)
    ensures !Fifo(steps) ==> exists i, j :: Inverted(Run(steps), i, j)
  {
    hide Concat, Inv, Next, Waiting;
    if steps == [] {
      NothingWaits();
    } else {
      var front, step := steps[..|steps| - 1], steps[|steps| - 1];
      var g, f := Run(front), Run(steps);
      EveryRunKeepsInv(front);
      InOrderExactly(front);
      assert steps == front + [step];
      if Fifo(steps) {
        FifoStepKeepsOrder(g, step);
      } else if Overtakes(step) && Fifo(front) {
        OvertakingInverts(g, step.batch);
      } else {
        assert !Fifo(front);
        var i, j :| Inverted(g, i, j);
        var q := StepKeepsInversion(g, step, i, j);
        assert Inverted(f, i, q);
      }
    }
  }
}
