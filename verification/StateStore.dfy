/** forecasting/state_store.py: a bounded memory of recent states, an index per IP, and a table of rows
    on disk. Each is meant to agree with the full log of states. */
module StateStore {
  import opened Common

  const HISTORY_PER_IP: nat := 200

  datatype NetworkState = NetworkState(
    timestamp: int, ipHash: string, features: seq<real>, action: string, stage: Option<int>)

  type States = seq<NetworkState>

  // ---------- deques, slices and queries ----------

  /** Appending to a deque of bounded length: a full one drops its oldest element. */
  function Pushed<T>(deque: seq<T>, maxlen: nat, x: T): seq<T> {
    if |deque| < maxlen then deque + [x]
    else if maxlen == 0 then []
    else deque[1..] + [x]
  }

  /** Python's history[-n:]. Zero takes everything and a negative n drops |n| from the front. */
  function FromEnd<T>(history: seq<T>, n: int): seq<T> {
    if n > 0 then LastN(history, n)
    else if -n <= |history| then history[-n..]
    else []
  }

  function Reversed<T>(s: seq<T>): (r: seq<T>)
    ensures |r| == |s|
  {
    seq(|s|, i requires 0 <= i < |s| => s[|s| - 1 - i])
  }

  /** ORDER BY id DESC LIMIT ?: newest first; SQLite reads a negative limit as no limit. */
  function NewestFirst<T>(rows: seq<T>, limit: int): seq<T> {
    if limit < 0 || |rows| <= limit then Reversed(rows) else Reversed(rows)[..limit]
  }

  function Recent<T>(rows: seq<T>, limit: int): seq<T> {
    if limit < 0 then rows else LastN(rows, limit)
  }

  lemma NewestFirstReversed<T>(rows: seq<T>, limit: int)
    ensures Reversed(NewestFirst(rows, limit)) == Recent(rows, limit)
  {
  }

  // ---------- what the memory should hold ----------

  datatype Memory = Memory(buffer: States, ips: seq<string>, index: map<string, States>)

  const EMPTY := Memory([], [], map[])

  function Kept(index: map<string, States>, ip: string): States {
    if ip in index then index[ip] else []
  }

  function Remember(m: Memory, capacity: nat, s: NetworkState): Memory {
    Memory(Pushed(m.buffer, capacity, s),
           if s.ipHash in m.index then m.ips else m.ips + [s.ipHash],
           m.index[s.ipHash := Pushed(Kept(m.index, s.ipHash), HISTORY_PER_IP, s)])
  }

  function RememberAll(m: Memory, capacity: nat, states: States): Memory {
    if states == [] then m
    else Remember(RememberAll(m, capacity, states[..|states| - 1]), capacity, states[|states| - 1])
  }

  /** The records of one IP, in order. */
  function OfIp(log: States, ip: string): (r: States)
    ensures |r| <= |log|
  {
    if log == [] then []
    else
      var front, last := OfIp(log[..|log| - 1], ip), log[|log| - 1];
      if last.ipHash == ip then front + [last] else front
  }

  /** The IPs of a log in the order of their first record: the order of the index dictionary. */
  function FirstSeen(log: States): seq<string> {
    if log == [] then []
    else
      var front, last := log[..|log| - 1], log[|log| - 1];
      if OfIp(front, last.ipHash) != [] then FirstSeen(front) else FirstSeen(front) + [last.ipHash]
  }

  /** The memory agrees with the full log: the buffer is its end, each index entry is the end of its
      IP's part. */
  ghost predicate Recalls(m: Memory, capacity: nat, log: States) {
    && m.buffer == LastN(log, capacity)
    && m.ips == FirstSeen(log)
    && (forall ip :: ip in m.index <==> OfIp(log, ip) != [])
    && (forall ip :: ip in m.index ==> m.index[ip] == LastN(OfIp(log, ip), HISTORY_PER_IP))
  }

  lemma EmptyRecalls(capacity: nat)
    ensures Recalls(EMPTY, capacity, [])
  {
  }

  lemma PushedIsEnd<T>(log: seq<T>, n: nat, x: T)
    ensures Pushed(LastN(log, n), n, x) == LastN(log + [x], n)
  {
  }

  lemma LogPush(log: States, s: NetworkState)
    ensures forall ip :: OfIp(log + [s], ip) == if s.ipHash == ip then OfIp(log, ip) + [s] else OfIp(log, ip)
    ensures FirstSeen(log + [s]) == if OfIp(log, s.ipHash) != [] then FirstSeen(log) else FirstSeen(log) + [s.ipHash]
  {
    assert (log + [s])[..|log|] == log;
  }

  lemma RememberRecalls(m: Memory, capacity: nat, log: States, s: NetworkState)
    requires Recalls(m, capacity, log)
    ensures Recalls(Remember(m, capacity, s), capacity, log + [s])
  {
    hide OfIp, FirstSeen, LastN, Pushed;
    LogPush(log, s);
    PushedIsEnd(log, capacity, s);
    PushedIsEnd(OfIp(log, s.ipHash), HISTORY_PER_IP, s);
    assert OfIp(log, s.ipHash) == [] ==> LastN(OfIp(log, s.ipHash), HISTORY_PER_IP) == [];
  }

  lemma {:induction false} RememberAllRecalls(m: Memory, capacity: nat, log: States, states: States)
    requires Recalls(m, capacity, log)
    ensures Recalls(RememberAll(m, capacity, states), capacity, log + states)
  {
    hide Recalls, Remember;
    if states == [] {
      assert log + states == log;
    } else {
      var front, last := states[..|states| - 1], states[|states| - 1];
      RememberAllRecalls(m, capacity, log, front);
      RememberRecalls(RememberAll(m, capacity, front), capacity, log + front, last);
      assert log + states == log + front + [last];
    }
  }

  /** How many states get_ip_history returns for an address with this many records. */
  function HistoryLength(records: nat, n: int): nat {
    var kept := if records < HISTORY_PER_IP then records else HISTORY_PER_IP;
    if n > 0 then if n < kept then n else kept
    else if kept + n > 0 then kept + n else 0
  }

  /** For every n, negative ones included, the answer is an end of the address's records. */
  lemma HistoryFromLog(m: Memory, capacity: nat, log: States, ip: string, n: int)
    requires Recalls(m, capacity, log)
    ensures FromEnd(Kept(m.index, ip), n) == LastN(OfIp(log, ip), HistoryLength(|OfIp(log, ip)|, n))
  {
    hide OfIp, FirstSeen;
    var records := OfIp(log, ip);
    assert Kept(m.index, ip) == LastN(records, HISTORY_PER_IP);
    if n > 0 {
      LastNLastN(records, HISTORY_PER_IP, n);
    }
  }

  /** get_ip_history against its documentation, "the most recent n states": it returns those exactly when
      there are no records at all, or n is positive and the index keeps as many as asked for, or n is
      negative and drops everything. For n = 0 it returns all that is kept. */
  lemma HistoryExactly(m: Memory, capacity: nat, log: States, ip: string, n: int)
    requires Recalls(m, capacity, log)
    ensures var records := OfIp(log, ip);
      FromEnd(Kept(m.index, ip), n) == LastN(records, if n < 0 then 0 else n) <==>
        || records == []
        || (n > 0 && (n <= HISTORY_PER_IP || |records| <= HISTORY_PER_IP))
        || (n < 0 && (-n >= HISTORY_PER_IP || -n >= |records|))
  {
    hide OfIp, FirstSeen;
    HistoryFromLog(m, capacity, log, ip, n);
    LastNEqual(OfIp(log, ip), HistoryLength(|OfIp(log, ip)|, n), if n < 0 then 0 else n);
  }

  // ---------- training sequences ----------

  /** Python's list[lo:hi] for lo >= 0: a negative hi counts from the end. */
  function Slice<T>(list: seq<T>, lo: nat, hi: int): (r: seq<T>)
    ensures lo <= hi <= |list| ==> r == list[lo..hi]
    ensures hi < 0 ==> r == if lo <= |list| + hi then list[lo..|list| + hi] else []
  {
    var stop := if hi > |list| then |list| else if hi >= 0 then hi else if |list| + hi > 0 then |list| + hi else 0;
    if lo <= stop then list[lo..stop] else []
  }

  function WindowsFrom<T>(list: seq<T>, size: int, i: nat): seq<seq<T>>
    decreases |list| - size - i
  {
    if i + size > |list| then [] else [Slice(list, i, i + size)] + WindowsFrom(list, size, i + 1)
  }

  function AllWindows(ips: seq<string>, index: map<string, States>, size: int, minLength: int): seq<States>
    requires forall ip :: ip in ips ==> ip in index
  {
    if ips == [] then []
    else
      var rest := ips[..|ips| - 1];
      var states := index[ips[|ips| - 1]];
      AllWindows(rest, index, size, minLength) + if |states| < minLength then [] else WindowsFrom(states, size, 0)
  }

  ghost predicate BlockOf<T>(w: seq<T>, list: seq<T>, k: nat, size: int) {
    k + size <= |list| && Slice(list, k, k + size) == w
  }

  lemma {:induction false} WindowsFromMember<T>(list: seq<T>, size: int, i: nat, w: seq<T>)
    ensures w in WindowsFrom(list, size, i) <==> exists k :: i <= k && BlockOf(w, list, k, size)
    decreases |list| - size - i
  {
    if i + size > |list| {
    } else {
      WindowsFromMember(list, size, i + 1, w);
      assert w in WindowsFrom(list, size, i) <==> BlockOf(w, list, i, size) || w in WindowsFrom(list, size, i + 1);
    }
  }

  lemma {:induction false} AllWindowsMember(ips: seq<string>, index: map<string, States>, size: int,
        minLength: int, w: States)
    requires forall ip :: ip in ips ==> ip in index
    ensures w in AllWindows(ips, index, size, minLength) <==>
            exists ip :: ip in ips && |index[ip]| >= minLength && w in WindowsFrom(index[ip], size, 0)
  {
    if ips == [] {
    } else {
      var rest, ip := ips[..|ips| - 1], ips[|ips| - 1];
      AllWindowsMember(rest, index, size, minLength, w);
      assert ips == rest + [ip];
    }
  }

  lemma {:induction false} FirstSeenMember(log: States, ip: string)
    ensures ip in FirstSeen(log) <==> OfIp(log, ip) != []
  {
    if log == [] {
    } else {
      FirstSeenMember(log[..|log| - 1], ip);
    }
  }

  /** w is a block of `size` consecutive records among the kept ones of an IP that has enough of them.
      (For a negative size, w is what Python's slices of that width make of them.) */
  ghost predicate TrainsOn(w: States, log: States, ip: string, size: int, minLength: int) {
    var history := LastN(OfIp(log, ip), HISTORY_PER_IP);
    history != [] && |history| >= minLength && exists k :: BlockOf(w, history, k, size)
  }

  /** The training sequences are exactly those blocks. An IP therefore contributes only from
      max(minLength, size) kept records on: a minimum below the window size asks for nothing. */
  lemma SequencesExactly(m: Memory, capacity: nat, log: States, size: int, minLength: int, w: States)
    requires Recalls(m, capacity, log)
    ensures forall ip :: ip in m.ips <==> ip in m.index
    ensures w in AllWindows(m.ips, m.index, size, minLength) <==>
            exists ip :: TrainsOn(w, log, ip, size, minLength)
  {
    hide OfIp, FirstSeen, LastN, WindowsFrom, AllWindows, BlockOf;
    forall ip ensures ip in m.ips <==> ip in m.index {
      FirstSeenMember(log, ip);
    }
    AllWindowsMember(m.ips, m.index, size, minLength, w);
    forall ip
      ensures TrainsOn(w, log, ip, size, minLength) <==>
              ip in m.ips && |m.index[ip]| >= minLength && w in WindowsFrom(m.index[ip], size, 0)
    {
      if ip in m.index {
        WindowsFromMember(m.index[ip], size, 0, w);
      }
    }
  }

  // ---------- one sequence for each block, in order ----------

  /** How many blocks a list of n states contributes. */
  function BlockCount(n: nat, size: int, minLength: int): nat {
    if n < minLength || n < size then 0 else n - size + 1
  }

  /** How many blocks the first a addresses contribute, each by its last 200 records. */
  ghost function BlocksBefore(log: States, ips: seq<string>, size: int, minLength: int, a: nat): nat
    requires a <= |ips|
  {
    if a == 0 then 0
    else BlocksBefore(log, ips, size, minLength, a - 1) +
         BlockCount(|LastN(OfIp(log, ips[a - 1]), 200)|, size, minLength)
  }

  /** The windows of a list stand in order, one for each start. */
  lemma {:induction false} WindowsFromInOrder<T>(list: seq<T>, size: int, i: nat)
    ensures |WindowsFrom(list, size, i)| == if i + size > |list| then 0 else |list| - size - i + 1
    ensures forall k :: 0 <= k < |WindowsFrom(list, size, i)| ==>
      WindowsFrom(list, size, i)[k] == Slice(list, i + k, i + k + size)
    decreases |list| - size - i
  {
    hide Slice;
    if i + size > |list| {
    } else {
      var all, rest := WindowsFrom(list, size, i), WindowsFrom(list, size, i + 1);
      WindowsFromInOrder(list, size, i + 1);
      assert all == [Slice(list, i, i + size)] + rest;
      hide WindowsFrom;
      forall k | 0 <= k < |all| ensures all[k] == Slice(list, i + k, i + k + size) {
        if k > 0 {
          assert all[k] == rest[k - 1] == Slice(list, i + 1 + (k - 1), i + 1 + (k - 1) + size);
        }
      }
    }
  }

  ghost predicate Distinct(ips: seq<string>) {
    forall i, j :: 0 <= i < j < |ips| ==> ips[i] != ips[j]
  }

  lemma {:induction false} FirstSeenDistinct(log: States)
    ensures Distinct(FirstSeen(log))
  {
    if log == [] {
    } else {
      var front := log[..|log| - 1];
      FirstSeenDistinct(front);
      FirstSeenMember(front, log[|log| - 1].ipHash);
    }
  }

  lemma {:induction false} WindowsCounted(log: States, ips: seq<string>, index: map<string, States>, n: nat,
      size: int, minLength: int)
    requires n <= |ips|
    requires forall ip :: ip in ips ==> ip in index && index[ip] == LastN(OfIp(log, ip), 200)
    ensures |AllWindows(ips[..n], index, size, minLength)| == BlocksBefore(log, ips, size, minLength, n)
  {
    hide OfIp, LastN, WindowsFrom, Slice;
    if n == 0 {
    } else {
      WindowsCounted(log, ips, index, n - 1, size, minLength);
      WindowsFromInOrder(index[ips[n - 1]], size, 0);
      assert ips[..n][..n - 1] == ips[..n - 1];
    }
  }

  /** Block k of address a stands where the blocks before it end. */
  lemma {:induction false} WindowStands(log: States, ips: seq<string>, index: map<string, States>, n: nat,
      size: int, minLength: int, a: nat, k: nat)
    requires a < n <= |ips|
    requires forall ip :: ip in ips ==> ip in index && index[ip] == LastN(OfIp(log, ip), 200)
    requires k < BlockCount(|LastN(OfIp(log, ips[a]), 200)|, size, minLength)
    ensures var sequences := AllWindows(ips[..n], index, size, minLength);
      var p := BlocksBefore(log, ips, size, minLength, a);
      p + k < |sequences| && sequences[p + k] == Slice(LastN(OfIp(log, ips[a]), 200), k, k + size)
  {
    hide OfIp, LastN, WindowsFrom, Slice, BlocksBefore;
    assert ips[..n][..n - 1] == ips[..n - 1];
    if a < n - 1 {
      WindowStands(log, ips, index, n - 1, size, minLength, a, k);
    } else {
      WindowsCounted(log, ips, index, n - 1, size, minLength);
      WindowsFromInOrder(index[ips[a]], size, 0);
    }
  }

  /** The training sequences in order, from the log alone: address by address as they first appeared, no
      address twice, block by block; so every block is used exactly once. */
  lemma SequencesInOrder(m: Memory, capacity: nat, log: States, size: int, minLength: int, a: nat, k: nat)
    requires Recalls(m, capacity, log)
    ensures Distinct(FirstSeen(log)) && forall ip :: ip in m.ips <==> ip in m.index
    ensures var sequences, ips := AllWindows(m.ips, m.index, size, minLength), FirstSeen(log);
      && |sequences| == BlocksBefore(log, ips, size, minLength, |ips|)
      && (a < |ips| && k < BlockCount(|LastN(OfIp(log, ips[a]), 200)|, size, minLength) ==>
            var p := BlocksBefore(log, ips, size, minLength, a) + k;
            p < |sequences| && sequences[p] == Slice(LastN(OfIp(log, ips[a]), 200), k, k + size))
  {
    hide OfIp, FirstSeen, LastN, AllWindows, BlockCount, BlocksBefore, Slice;
    forall ip ensures ip in m.ips <==> ip in m.index {
      FirstSeenMember(log, ip);
    }
    FirstSeenDistinct(log);
    WindowsCounted(log, m.ips, m.index, |m.ips|, size, minLength);
    assert m.ips[..|m.ips|] == m.ips;
    if a < |m.ips| && k < BlockCount(|LastN(OfIp(log, m.ips[a]), 200)|, size, minLength) {
      WindowStands(log, m.ips, m.index, |m.ips|, size, minLength, a, k);
    }
  }

  // ---------- whole runs ----------

  datatype Store = Store(capacity: nat, persistent: bool, memory: Memory, unflushed: States, rows: States)

  /** A flush commits its insert, or the insert raises an exception and is rolled back. */
  datatype Op = Append(state: NetworkState) | Flush(committed: bool) | Load(limit: int)

  function Opened(capacity: nat, persistent: bool, rows: States): Store {
    Store(capacity, persistent, EMPTY, [], rows)
  }

  function Apply(s: Store, op: Op): Store {
    match op
    case Append(state) =>
      s.(memory := Remember(s.memory, s.capacity, state), unflushed := s.unflushed + [state])
    case Flush(committed) =>
      if !s.persistent then s
      else if committed then s.(unflushed := [], rows := s.rows + s.unflushed)
      else s.(unflushed := [])
    case Load(limit) =>
      if s.persistent then s.(memory := RememberAll(s.memory, s.capacity, Recent(s.rows, limit))) else s
  }

  function Run(s: Store, ops: seq<Op>): Store {
    if ops == [] then s else Apply(Run(s, ops[..|ops| - 1]), ops[|ops| - 1])
  }

  function Written(ops: seq<Op>): States {
    if ops == [] then []
    else
      var front := Written(ops[..|ops| - 1]);
      if ops[|ops| - 1].Append? then front + [ops[|ops| - 1].state] else front
  }

  /** Everything that entered the memory during a run: appended states and loaded rows. */
  function Entered(s: Store, ops: seq<Op>): States {
    if ops == [] then []
    else
      var front, last := ops[..|ops| - 1], ops[|ops| - 1];
      match last
      case Append(state) => Entered(s, front) + [state]
      case Flush(_) => Entered(s, front)
      case Load(limit) =>
        if s.persistent then Entered(s, front) + Recent(Run(s, front).rows, limit) else Entered(s, front)
  }

  /** What flushes took off the unflushed list and did not commit. */
  function Lost(s: Store, ops: seq<Op>): States {
    if ops == [] then []
    else
      var front, last := ops[..|ops| - 1], ops[|ops| - 1];
      if s.persistent && last == Flush(false) then Lost(s, front) + Run(s, front).unflushed else Lost(s, front)
  }

  /** Table, unflushed and lost states are the old table and all that was appended. */
  ghost predicate Accounted(s: Store, lost: States, all: States) {
    && multiset(s.rows) + multiset(s.unflushed) + multiset(lost) == multiset(all)
    && (s.rows + s.unflushed == all <==> lost == [])
  }

  lemma AccountedFlush(s: Store, lost: States, all: States, committed: bool)
    requires Accounted(s, lost, all) && s.persistent
    ensures Accounted(Apply(s, Flush(committed)), if committed then lost else lost + s.unflushed, all)
  {
    var after := Apply(s, Flush(committed));
    assert (s.rows + s.unflushed) + [] == s.rows + s.unflushed;
    assert multiset(after.rows) + multiset(after.unflushed) + multiset(if committed then lost else lost + s.unflushed)
        == multiset(s.rows) + multiset(s.unflushed) + multiset(lost);
    if !committed && s.unflushed != [] {
      assert |multiset(s.rows)| < |multiset(all)|;
    }
  }

  lemma AccountedAppend(s: Store, lost: States, all: States, state: NetworkState)
    requires Accounted(s, lost, all)
    ensures Accounted(s.(unflushed := s.unflushed + [state]), lost, all + [state])
  {
    assert s.rows + (s.unflushed + [state]) == (s.rows + s.unflushed) + [state];
    if s.rows + (s.unflushed + [state]) == all + [state] {
      assert ((s.rows + s.unflushed) + [state])[..|s.rows + s.unflushed|] == (all + [state])[..|all|];
    }
  }

  /** Over every run of a store opened on any table: the memory agrees with what entered it; old table and
      appended states are each once in the table, unflushed, or lost to a failed insert; and in order, the
      table followed by the unflushed states, if and only if nothing was lost. */
  lemma {:induction false} RunKeepsLog(capacity: nat, persistent: bool, rows: States, ops: seq<Op>)
    ensures var start := Opened(capacity, persistent, rows);
            var s := Run(start, ops);
            && s.capacity == capacity && s.persistent == persistent
            && Recalls(s.memory, capacity, Entered(start, ops))
            && Accounted(s, Lost(start, ops), rows + Written(ops))
  {
    hide Recalls, Remember, RememberAll, Accounted;
    var start := Opened(capacity, persistent, rows);
    if ops == [] {
      EmptyRecalls(capacity);
      OpenedAccounted(capacity, persistent, rows);
    } else {
      var front, last := ops[..|ops| - 1], ops[|ops| - 1];
      RunKeepsLog(capacity, persistent, rows, front);
      var s := Run(start, front);
      match last
      case Append(state) =>
        RememberRecalls(s.memory, capacity, Entered(start, front), state);
        AccountedAppend(s, Lost(start, front), rows + Written(front), state);
        assert rows + (Written(front) + [state]) == (rows + Written(front)) + [state];
        AccountedMemory(s.(unflushed := s.unflushed + [state]), Remember(s.memory, capacity, state),
                        Lost(start, front), rows + Written(ops));
      case Flush(committed) =>
        if persistent {
          AccountedFlush(s, Lost(start, front), rows + Written(front), committed);
        }
      case Load(limit) =>
        if persistent {
          var recent := Recent(s.rows, limit);
          RememberAllRecalls(s.memory, capacity, Entered(start, front), recent);
          AccountedMemory(s, RememberAll(s.memory, capacity, recent), Lost(start, front), rows + Written(front));
        }
    }
  }

  lemma OpenedAccounted(capacity: nat, persistent: bool, rows: States)
    ensures Accounted(Opened(capacity, persistent, rows), [], rows + [])
  {
    assert rows + [] == rows;
  }

  /** The memory has no part in it. */
  lemma AccountedMemory(s: Store, memory: Memory, lost: States, all: States)
    requires Accounted(s, lost, all)
    ensures Accounted(s.(memory := memory), lost, all)
  {
  }

  predicate NoLoad(ops: seq<Op>) {
    forall i :: 0 <= i < |ops| ==> !ops[i].Load?
  }

  lemma {:induction false} EnteredIsWritten(s: Store, ops: seq<Op>)
    requires NoLoad(ops)
    ensures Entered(s, ops) == Written(ops)
  {
    if ops == [] {
    } else {
      EnteredIsWritten(s, ops[..|ops| - 1]);
    }
  }

  /** The part of an IP's records that lies in the last n of the log is the end of its records. */
  lemma {:induction false} OfIpRecent(log: States, n: nat, ip: string)
    ensures OfIp(LastN(log, n), ip) == LastN(OfIp(log, ip), |OfIp(LastN(log, n), ip)|)
  {
    hide LastN;
    if log == [] || n == 0 {
      assert LastN(log, n) == [];
    } else {
      var front, last := log[..|log| - 1], log[|log| - 1];
      OfIpRecent(front, n - 1, ip);
      var recent := LastN(front, n - 1);
      LastNPush(front, n - 1, last);
      assert front + [last] == log;
      assert (recent + [last])[..|recent|] == recent;
      LastNPush(OfIp(front, ip), |OfIp(recent, ip)|, last);
    }
  }

  lemma LastNPush<T>(s: seq<T>, n: nat, x: T)
    ensures LastN(s, n) + [x] == LastN(s + [x], n + 1)
  {
  }

  lemma LastNEqual<T>(s: seq<T>, m: nat, n: nat)
    ensures LastN(s, m) == LastN(s, n) <==> m == n || (|s| <= m && |s| <= n)
  {
    if LastN(s, m) == LastN(s, n) {
      assert |LastN(s, m)| == |LastN(s, n)|;
    }
  }

  /** Two lengths of the same end, both cut to at most n. */
  lemma CutEqual<T>(s: seq<T>, m: nat, n: nat)
    ensures LastN(LastN(s, m), n) == LastN(s, n) <==> n <= m || |s| <= m
  {
    LastNLastN(s, m, n);
    LastNEqual(s, if m < n then m else n, n);
  }

  /** What survives when the last `limit` records of a log are remembered instead of all of them. */
  lemma ReloadExactly(capacity: nat, log: States, limit: int, ip: string, whole: Memory, part: Memory)
    requires Recalls(whole, capacity, log) && Recalls(part, capacity, Recent(log, limit))
    ensures part.buffer == whole.buffer <==> limit < 0 || capacity <= limit || |log| <= limit
    ensures Kept(part.index, ip) == Kept(whole.index, ip) <==>
            || |OfIp(Recent(log, limit), ip)| >= HISTORY_PER_IP
            || |OfIp(Recent(log, limit), ip)| == |OfIp(log, ip)|
  {
    hide OfIp, FirstSeen;
    assert Kept(whole.index, ip) == LastN(OfIp(log, ip), HISTORY_PER_IP);
    assert Kept(part.index, ip) == LastN(OfIp(Recent(log, limit), ip), HISTORY_PER_IP);
    if limit >= 0 {
      CutEqual(log, limit, capacity);
      OfIpRecent(log, limit, ip);
      CutEqual(OfIp(log, ip), |OfIp(LastN(log, limit), ip)|, HISTORY_PER_IP);
    }
  }

  /** Restarting on a flushed table. The buffer comes back exactly when the limit covers the kept part of
      the log, and an IP's history exactly when the loaded rows hold as many of its records as the index
      keeps, or all it has. With the defaults (limit 1000, capacity 10000) a full buffer does not come
      back. */
  lemma RestartExactly(capacity: nat, ops: seq<Op>, limit: int, ip: string)
    requires NoLoad(ops) && Lost(Opened(capacity, true, []), ops) == []
    ensures var before := Run(Opened(capacity, true, []), ops + [Flush(true)]);
            var after := Apply(Opened(capacity, true, before.rows), Load(limit));
            var log := Written(ops);
            && before.rows == after.rows == log
            && (after.memory.buffer == before.memory.buffer <==>
                limit < 0 || capacity <= limit || |log| <= limit)
            && (Kept(after.memory.index, ip) == Kept(before.memory.index, ip) <==>
                || |OfIp(Recent(log, limit), ip)| >= HISTORY_PER_IP
                || |OfIp(Recent(log, limit), ip)| == |OfIp(log, ip)|)
  {
    hide Recalls, RememberAll, Remember, OfIp, Recent, LastN, Kept, Run;
    var log := Written(ops);
    FlushedRun(capacity, ops);
    var before := Run(Opened(capacity, true, []), ops + [Flush(true)]);
    EmptyRecalls(capacity);
    RememberAllRecalls(EMPTY, capacity, [], Recent(log, limit));
    assert [] + Recent(log, limit) == Recent(log, limit);
    ReloadExactly(capacity, log, limit, ip, before.memory, RememberAll(EMPTY, capacity, Recent(log, limit)));
  }

  lemma FlushedRun(capacity: nat, ops: seq<Op>)
    requires NoLoad(ops) && Lost(Opened(capacity, true, []), ops) == []
    ensures var s := Run(Opened(capacity, true, []), ops + [Flush(true)]);
      s.rows == Written(ops) && Recalls(s.memory, capacity, Written(ops))
  {
    hide Recalls, RememberAll, Remember;
    var start, all := Opened(capacity, true, []), ops + [Flush(true)];
    assert all[..|all| - 1] == ops;
    RunKeepsLog(capacity, true, [], all);
    EnteredIsWritten(start, all);
    var s := Run(start, all);
    assert s.unflushed == [];
    assert s.rows == s.rows + s.unflushed == [] + Written(ops) == Written(ops);
  }

  // ---------- the store ----------

  /** The SQLite table: rows in the order of their ids. */
  class Database {
    var rows: States

    constructor ()
      ensures rows == []
    {
      rows := [];
    }
  }

  class StateStore {
    const capacity: nat
    const database: Database?
    var buffer: States
    var ips: seq<string>
    var index: map<string, States>
    var unflushed: States
    ghost var log: States  // everything that ever entered the memory

    /** The memory agrees with the full log. */
    ghost predicate Valid()
      reads this
    {
      Recalls(Memory(buffer, ips, index), capacity, log)
    }

    constructor (capacity: nat, database: Database?)
      ensures Valid() && log == []
      ensures this.capacity == capacity && this.database == database
      ensures Snapshot() == Opened(capacity, database != null, if database == null then [] else database.rows)
    {
      this.capacity, this.database := capacity, database;
      buffer, ips, index, unflushed, log := [], [], map[], [], [];
      EmptyRecalls(capacity);
    }

    /** The store's whole state, table included. */
    ghost function Snapshot(): Store
      reads this, database
    {
      Store(capacity, database != null, Memory(buffer, ips, index), unflushed,
            if database == null then [] else database.rows)
    }

    /** The loop body that append and load_from_sqlite share. */
    method Index(state: NetworkState)
      requires Valid()
      modifies this`buffer, this`ips, this`index, this`log
      ensures Valid() && log == old(log) + [state]
      ensures Memory(buffer, ips, index) == Remember(old(Memory(buffer, ips, index)), capacity, state)
    {
      hide Recalls, Pushed;
      ghost var before := Memory(buffer, ips, index);
      RememberRecalls(before, capacity, log, state);
      buffer := Pushed(buffer, capacity, state);
      if state.ipHash !in index {
        index := index[state.ipHash := []];
        ips := ips + [state.ipHash];
      }
      index := index[state.ipHash := Pushed(index[state.ipHash], HISTORY_PER_IP, state)];
      log := log + [state];
      assert Memory(buffer, ips, index) == Remember(before, capacity, state);
    }

    method Append(state: NetworkState)
      requires Valid()
      modifies this
      ensures Valid() && log == old(log) + [state]
      ensures Snapshot() == Apply(old(Snapshot()), Op.Append(state))
    {
      hide Recalls, Remember;
      Index(state);
      unflushed := unflushed + [state];
    }

    /** The end of the address's records, as long as n asks for and the index keeps. */
    function GetIpHistory(ip: string, n: int): (history: States)
      requires Valid()
      reads this
      ensures history == LastN(OfIp(log, ip), HistoryLength(|OfIp(log, ip)|, n))
    {
      HistoryFromLog(Memory(buffer, ips, index), capacity, log, ip, n);
      if ip !in index then [] else FromEnd(index[ip], n)
    }

    /** The training sequences, address by address in the order of their first record. */
    method GetAllSequences(windowSize: int, minLength: int) returns (sequences: seq<States>)
      requires Valid()
      ensures forall ip :: ip in ips <==> ip in index
      ensures sequences == AllWindows(ips, index, windowSize, minLength)
      ensures forall w :: w in sequences <==> exists ip :: TrainsOn(w, log, ip, windowSize, minLength)
    {
      hide Recalls, TrainsOn, Slice;
      SequencesExactly(Memory(buffer, ips, index), capacity, log, windowSize, minLength, []);
      sequences := [];
      for i := 0 to |ips|
        invariant sequences == AllWindows(ips[..i], index, windowSize, minLength)
      {
        assert ips[..i + 1][..i] == ips[..i];
        if |index[ips[i]]| >= minLength {
          sequences := AddWindows(sequences, index[ips[i]], windowSize);
        }
      }
      assert ips[..|ips|] == ips;
      forall w ensures w in sequences <==> exists ip :: TrainsOn(w, log, ip, windowSize, minLength) {
        SequencesExactly(Memory(buffer, ips, index), capacity, log, windowSize, minLength, w);
      }
    }

    /** The inner loop. */
    static method AddWindows(before: seq<States>, states: States, windowSize: int) returns (sequences: seq<States>)
      ensures sequences == before + WindowsFrom(states, windowSize, 0)
    {
      sequences := before;
      var i := 0;
      while i < |states| - windowSize + 1
        invariant 0 <= i
        invariant before + WindowsFrom(states, windowSize, 0) == sequences + WindowsFrom(states, windowSize, i)
      {
        sequences := sequences + [Slice(states, i, i + windowSize)];
        i := i + 1;
      }
    }

    /** The number of persisted states, or None when the insert raises an exception: the states it took are
        then in neither place. */
    method FlushToSqlite(committed: bool) returns (count: Option<nat>)
      requires Valid()
      modifies this, database
      ensures Valid() && log == old(log)
      ensures Snapshot() == Apply(old(Snapshot()), Flush(committed))
      ensures count == if database == null || old(unflushed) == [] then Some(0)
                       else if committed then Some(old(|unflushed|)) else None
    {
      hide Recalls;
      if database == null || unflushed == [] {
        assert database != null ==> database.rows + [] == database.rows;
        return Some(0);
      }
      var toSave := unflushed;
      unflushed := [];
      if !committed {
        return None;
      }
      database.rows := database.rows + toSave;
      count := Some(|toSave|);
    }

    method LoadFromSqlite(limit: int) returns (count: nat)
      requires Valid()
      modifies this
      ensures Valid() && log == old(log) + if database == null then [] else Recent(database.rows, limit)
      ensures Snapshot() == Apply(old(Snapshot()), Load(limit))
      ensures count == if database == null then 0 else |Recent(database.rows, limit)|
    {
      hide Recalls, Remember, Recent, NewestFirst, Reversed;
      if database == null {
        return 0;
      }
      NewestFirstReversed(database.rows, limit);
      var loaded := Reversed(NewestFirst(database.rows, limit));
      for i := 0 to |loaded|
        invariant unflushed == old(unflushed) && database.rows == old(database.rows)
        invariant Valid() && log == old(log) + loaded[..i]
        invariant Memory(buffer, ips, index) == RememberAll(old(Memory(buffer, ips, index)), capacity, loaded[..i])
      {
        assert loaded[..i + 1][..i] == loaded[..i];
        Index(loaded[i]);
      }
      assert loaded[..|loaded|] == loaded;
      count := |loaded|;
    }
  }
}
