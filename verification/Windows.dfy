/** Time-stamped logs and sliding windows: what the limiter of core/security/traffic_rules.go and the
    feature tracker of core/inference/middleware.go keep per key. Times are clock ticks. */
module Windows {

  datatype Stamped<T> = Stamped(time: int, item: T)

  /** The records strictly later than the cutoff (Go's Timestamp.After(cutoff)), in order. */
  function Since<T>(log: seq<Stamped<T>>, cutoff: int): (r: seq<Stamped<T>>)
    ensures |r| <= |log|
  {
    if log == [] then []
    else
      var last := log[|log| - 1];
      if last.time > cutoff then Since(log[..|log| - 1], cutoff) + [last] else Since(log[..|log| - 1], cutoff)
  }

  lemma {:induction false} SinceMember<T>(log: seq<Stamped<T>>, cutoff: int, i: nat)
    requires i < |Since(log, cutoff)|
    ensures Since(log, cutoff)[i].time > cutoff
    ensures exists j :: 0 <= j < |log| && log[j] == Since(log, cutoff)[i]
  {
    var front := log[..|log| - 1];
    if i < |Since(front, cutoff)| {
      SinceMember(front, cutoff, i);
      var j :| 0 <= j < |front| && front[j] == Since(front, cutoff)[i];
      assert log[j] == Since(log, cutoff)[i];
    } else {
      assert log[|log| - 1] == Since(log, cutoff)[i];
    }
  }

  /** The pruning loop, as both components write it. */
  method Prune<T>(log: seq<Stamped<T>>, cutoff: int) returns (kept: seq<Stamped<T>>)
    ensures kept == Since(log, cutoff)
  {
    kept := [];
    for i := 0 to |log|
      invariant kept == Since(log[..i], cutoff)
    {
      assert log[..i + 1][..i] == log[..i];
      if log[i].time > cutoff {
        kept := kept + [log[i]];
      }
    }
    assert log[..|log|] == log;
  }

  /** Pruning again with a later cutoff is pruning once with the later cutoff. */
  lemma {:induction false} SinceTwice<T>(log: seq<Stamped<T>>, a: int, b: int)
    requires a <= b
    ensures Since(Since(log, a), b) == Since(log, b)
  {
    if log == [] {
    } else {
      var front, last := log[..|log| - 1], log[|log| - 1];
      SinceTwice(front, a, b);
      if last.time > a {
        assert (Since(front, a) + [last])[..|Since(front, a)|] == Since(front, a);
      }
    }
  }

  lemma SinceAppend<T>(log: seq<Stamped<T>>, x: Stamped<T>, cutoff: int)
    ensures Since(log + [x], cutoff) == if x.time > cutoff then Since(log, cutoff) + [x] else Since(log, cutoff)
  {
    assert (log + [x])[..|log|] == log;
  }

  lemma {:induction false} SinceNothing<T>(log: seq<Stamped<T>>, cutoff: int)
    requires forall i :: 0 <= i < |log| ==> log[i].time <= cutoff
    ensures Since(log, cutoff) == []
  {
    if log == [] {
    } else {
      SinceNothing(log[..|log| - 1], cutoff);
    }
  }

  lemma {:induction false} SinceEverything<T>(log: seq<Stamped<T>>, cutoff: int)
    requires forall i :: 0 <= i < |log| ==> log[i].time > cutoff
    ensures Since(log, cutoff) == log
  {
    if log == [] {
    } else {
      SinceEverything(log[..|log| - 1], cutoff);
    }
  }

  /** How many records are kept is how many positions of the log are later than the cutoff. */
  lemma {:induction false} SinceCount<T>(log: seq<Stamped<T>>, cutoff: int)
    ensures |Since(log, cutoff)| == |set i | 0 <= i < |log| && log[i].time > cutoff|
  {
    if log == [] {
    } else {
      var front, n := log[..|log| - 1], |log| - 1;
      SinceCount(front, cutoff);
      assert (set i | 0 <= i < |log| && log[i].time > cutoff) ==
             (set i | 0 <= i < |front| && front[i].time > cutoff) + if log[n].time > cutoff then {n} else {};
    }
  }

  /** The log that a map of logs holds for a key. */
  function Kept<T>(logs: map<string, seq<Stamped<T>>>, key: string): seq<Stamped<T>> {
    if key in logs then logs[key] else []
  }

  /** The kept log and the full log look the same after the cutoff. */
  ghost predicate Agree<T>(kept: seq<Stamped<T>>, full: seq<Stamped<T>>, cutoff: int) {
    Since(kept, cutoff) == Since(full, cutoff)
  }

  lemma AgreeSince<T>(kept: seq<Stamped<T>>, full: seq<Stamped<T>>, cutoff: int)
    requires Agree(kept, full, cutoff)
    ensures Since(kept, cutoff) == Since(full, cutoff)
  {
  }

  lemma AgreeLater<T>(kept: seq<Stamped<T>>, full: seq<Stamped<T>>, a: int, b: int)
    requires Agree(kept, full, a) && a <= b
    ensures Agree(kept, full, b)
  {
    SinceTwice(kept, a, b);
    SinceTwice(full, a, b);
  }

  lemma AgreeAppend<T>(kept: seq<Stamped<T>>, full: seq<Stamped<T>>, x: Stamped<T>, cutoff: int)
    requires Agree(kept, full, cutoff)
    ensures Agree(kept + [x], full + [x], cutoff)
  {
    SinceAppend(kept, x, cutoff);
    SinceAppend(full, x, cutoff);
  }

  lemma AgreePruned<T>(kept: seq<Stamped<T>>, full: seq<Stamped<T>>, cutoff: int)
    requires Agree(kept, full, cutoff)
    ensures Agree(Since(kept, cutoff), full, cutoff)
  {
    SinceTwice(kept, cutoff, cutoff);
  }
}
