/** core/security/traffic_rules.go: burst and endpoint-abuse limits over sliding windows. */
module TrafficRules {
  import opened Common
  import opened Windows

  type Stamps = seq<Stamped<()>>
  type Tracker = map<string, Stamps>

  datatype Limits = Limits(burstThreshold: nat, burstWindow: int, endpointThreshold: nat, endpointWindow: int) {
    predicate Valid() {
      burstThreshold > 0 && burstWindow > 0 && endpointThreshold > 0 && endpointWindow > 0
    }
  }

  // ---------- one tracker ----------

  function Recorded(tracker: Tracker, key: string, window: int, now: int): Tracker {
    tracker[key := Since(Kept(tracker, key), now - window) + [Stamped(now, ())]]
  }

  predicate Stale(stamps: Stamps, window: int, now: int) {
    stamps == [] || now - stamps[|stamps| - 1].time > window
  }

  function Cleaned(tracker: Tracker, window: int, now: int): Tracker {
    map key | key in tracker && !Stale(tracker[key], window, now) :: tracker[key]
  }

  /** recordRequest adds the call and returns how many calls are left in the window. */
  method RecordRequest(tracker: Tracker, key: string, window: int, now: int) returns (updated: Tracker, count: nat)
    ensures updated == Recorded(tracker, key, window, now) && count == |updated[key]|
  {
    var pruned := Prune(if key in tracker then tracker[key] else [], now - window);
    pruned := pruned + [Stamped(now, ())];
    updated, count := tracker[key := pruned], |pruned|;
  }

  /** One of the two loops of Cleanup. */
  method CleanTracker(tracker: Tracker, window: int, now: int) returns (cleaned: Tracker)
    ensures cleaned == Cleaned(tracker, window, now)
  {
    cleaned := tracker;
    var keys := tracker.Keys;
    while keys != {}
      invariant keys <= cleaned.Keys <= tracker.Keys
      invariant forall key :: key in cleaned ==> cleaned[key] == tracker[key]
      invariant forall key :: key in tracker && key !in keys ==>
        (key in cleaned <==> !Stale(tracker[key], window, now))
    {
      var key :| key in keys;
      if |cleaned[key]| == 0 || now - cleaned[key][|cleaned[key]| - 1].time > window {
        cleaned := cleaned - {key};
      }
      keys := keys - {key};
    }
  }

  // ---------- the endpoint key ----------

  function EndpointKey(ip: string, endpoint: string): string {
    ip + ":" + endpoint
  }

  /** An address without '/' and a path that starts with it, as clients and URLs have them. */
  predicate Separable(ip: string, endpoint: string) {
    '/' !in ip && endpoint != [] && endpoint[0] == '/'
  }

  /** The combined key tells the pairs apart, even for IPv6 addresses, which contain ':'. */
  lemma EndpointKeyInjective(ip: string, endpoint: string, ip': string, endpoint': string)
    requires Separable(ip, endpoint) && Separable(ip', endpoint')
    requires EndpointKey(ip, endpoint) == EndpointKey(ip', endpoint')
    ensures ip == ip' && endpoint == endpoint'
  {
    var key := EndpointKey(ip, endpoint);
    // the first '/' of the key stands right after the ':' that ends the address
    assert key[|ip| + 1] == '/' && key[|ip'| + 1] == '/';
    assert forall j :: 0 <= j <= |ip| ==> key[j] == if j < |ip| then ip[j] else ':';
    assert forall j :: 0 <= j <= |ip'| ==> key[j] == if j < |ip'| then ip'[j] else ':';
    assert |ip| == |ip'|;
    assert ip == key[..|ip|] && endpoint == key[|ip| + 1..];
    assert ip' == key[..|ip'|] && endpoint' == key[|ip'| + 1..];
  }

  /** ip' extends ip by a part that endpoint begins with. */
  ghost predicate Shifted(ip: string, endpoint: string, ip': string, endpoint': string) {
    exists x :: ip' == ip + ":" + x && endpoint == x + ":" + endpoint'
  }

  /** When two pairs share a key: they are the same, or a ':' moves between address and endpoint. */
  lemma KeysCollideExactly(ip: string, endpoint: string, ip': string, endpoint': string)
    ensures EndpointKey(ip, endpoint) == EndpointKey(ip', endpoint') <==>
      || (ip == ip' && endpoint == endpoint')
      || Shifted(ip, endpoint, ip', endpoint')
      || Shifted(ip', endpoint', ip, endpoint)
  {
    if EndpointKey(ip, endpoint) == EndpointKey(ip', endpoint') {
      if |ip| < |ip'| {
        ShorterAddress(ip, endpoint, ip', endpoint');
      } else if |ip'| < |ip| {
        ShorterAddress(ip', endpoint', ip, endpoint);
      } else {
        var key := EndpointKey(ip, endpoint);
        assert ip == key[..|ip|] == ip' && endpoint == key[|ip| + 1..] == endpoint';
      }
    } else {
      ShiftedKey(ip, endpoint, ip', endpoint');
      ShiftedKey(ip', endpoint', ip, endpoint);
    }
  }

  lemma ShorterAddress(ip: string, endpoint: string, ip': string, endpoint': string)
    requires EndpointKey(ip, endpoint) == EndpointKey(ip', endpoint') && |ip| < |ip'|
    ensures Shifted(ip, endpoint, ip', endpoint')
  {
    var key, x := EndpointKey(ip, endpoint), ip'[|ip| + 1..];
    assert ip == key[..|ip|] == ip'[..|ip|];
    assert ':' == key[|ip|] == ip'[|ip|];
    assert ip' == ip + ":" + x;
    assert endpoint == key[|ip| + 1..] == x + ":" + endpoint';
  }

  lemma ShiftedKey(ip: string, endpoint: string, ip': string, endpoint': string)
    ensures Shifted(ip, endpoint, ip', endpoint') ==> EndpointKey(ip, endpoint) == EndpointKey(ip', endpoint')
  {
    if x :| ip' == ip + ":" + x && endpoint == x + ":" + endpoint' {
      assert ip + ":" + (x + ":" + endpoint') == (ip + ":" + x) + ":" + endpoint';
    }
  }

  /** Two different pairs that share a key. */
  ghost predicate Collide(ip: string, endpoint: string, ip': string, endpoint': string) {
    EndpointKey(ip, endpoint) == EndpointKey(ip', endpoint') && !(ip == ip' && endpoint == endpoint')
  }

  /** Without the leading '/' that happens. */
  lemma EndpointKeyCollides()
    ensures Collide("a", "b:c", "a:b", "c")
  {
    assert "a:b" == "a" + ":" + "b" && "b:c" == "b" + ":" + "c";
    KeysCollideExactly("a", "b:c", "a:b", "c");
  }

  // ---------- runs ----------

  datatype Op =
    | Burst(ip: string, now: int)
    | Endpoint(ip: string, endpoint: string, now: int)
    | Cleanup(now: int)

  datatype State = State(burst: Tracker, endpoint: Tracker)

  function Step(limits: Limits, s: State, op: Op): State {
    match op
    case Burst(ip, now) => s.(burst := Recorded(s.burst, ip, limits.burstWindow, now))
    case Endpoint(ip, endpoint, now) =>
      s.(endpoint := Recorded(s.endpoint, EndpointKey(ip, endpoint), limits.endpointWindow, now))
    case Cleanup(now) =>
      State(Cleaned(s.burst, limits.burstWindow, now), Cleaned(s.endpoint, limits.endpointWindow, now))
  }

  ghost function RunUpTo(limits: Limits, ops: seq<Op>, k: nat): State
    requires k <= |ops|
  {
    if k == 0 then State(map[], map[]) else Step(limits, RunUpTo(limits, ops, k - 1), ops[k - 1])
  }

  /** What the check at position k answers. */
  ghost predicate Answers(limits: Limits, ops: seq<Op>, k: nat)
    requires k < |ops| && !ops[k].Cleanup?
  {
    var after := RunUpTo(limits, ops, k + 1);
    match ops[k]
    case Burst(ip, now) => |Kept(after.burst, ip)| <= limits.burstThreshold
    case Endpoint(ip, endpoint, now) =>
      |Kept(after.endpoint, EndpointKey(ip, endpoint))| <= limits.endpointThreshold
  }

  ghost predicate Clocked(ops: seq<Op>) {
    forall i, j :: 0 <= i <= j < |ops| ==> ops[i].now <= ops[j].now
  }

  /** All burst checks ever made for an address, rejected ones included. */
  ghost function BurstCalls(ops: seq<Op>, k: nat, ip: string): Stamps
    requires k <= |ops|
  {
    if k == 0 then []
    else if ops[k - 1].Burst? && ops[k - 1].ip == ip then BurstCalls(ops, k - 1, ip) + [Stamped(ops[k - 1].now, ())]
    else BurstCalls(ops, k - 1, ip)
  }

  /** All endpoint checks ever made under a key. */
  ghost function KeyCalls(ops: seq<Op>, k: nat, key: string): Stamps
    requires k <= |ops|
  {
    if k == 0 then []
    else if ops[k - 1].Endpoint? && EndpointKey(ops[k - 1].ip, ops[k - 1].endpoint) == key then
      KeyCalls(ops, k - 1, key) + [Stamped(ops[k - 1].now, ())]
    else KeyCalls(ops, k - 1, key)
  }

  // ---------- counting operations of a run ----------

  /** The burst checks of an address after the cutoff, among the first k operations. */
  ghost function BurstChecks(ops: seq<Op>, k: nat, ip: string, cutoff: int): set<int>
    requires k <= |ops|
  {
    set i | 0 <= i < k && ops[i].Burst? && ops[i].ip == ip && ops[i].now > cutoff
  }

  /** The endpoint checks under a key after the cutoff. */
  ghost function KeyChecks(ops: seq<Op>, k: nat, key: string, cutoff: int): set<int>
    requires k <= |ops|
  {
    set i | 0 <= i < k && ops[i].Endpoint? && ops[i].ip + ":" + ops[i].endpoint == key && ops[i].now > cutoff
  }

  /** The endpoint checks of an address and an endpoint after the cutoff. */
  ghost function PairChecks(ops: seq<Op>, k: nat, ip: string, endpoint: string, cutoff: int): set<int>
    requires k <= |ops|
  {
    set i | 0 <= i < k && ops[i].Endpoint? && ops[i].ip == ip && ops[i].endpoint == endpoint && ops[i].now > cutoff
  }

  lemma {:induction false} BurstCallsCounted(ops: seq<Op>, k: nat, ip: string, cutoff: int)
    requires k <= |ops|
    ensures |Since(BurstCalls(ops, k, ip), cutoff)| == |BurstChecks(ops, k, ip, cutoff)|
  {
    hide Since;
    if k == 0 {
      SinceNothing<()>([], cutoff);
    } else {
      var op := ops[k - 1];
      BurstCallsCounted(ops, k - 1, ip, cutoff);
      SinceAppend(BurstCalls(ops, k - 1, ip), Stamped(op.now, ()), cutoff);
      assert BurstChecks(ops, k, ip, cutoff) == BurstChecks(ops, k - 1, ip, cutoff) +
        if op.Burst? && op.ip == ip && op.now > cutoff then {k - 1} else {};
    }
  }

  lemma {:induction false} KeyCallsCounted(ops: seq<Op>, k: nat, key: string, cutoff: int)
    requires k <= |ops|
    ensures |Since(KeyCalls(ops, k, key), cutoff)| == |KeyChecks(ops, k, key, cutoff)|
  {
    hide Since;
    if k == 0 {
      SinceNothing<()>([], cutoff);
    } else {
      var op := ops[k - 1];
      KeyCallsCounted(ops, k - 1, key, cutoff);
      SinceAppend(KeyCalls(ops, k - 1, key), Stamped(op.now, ()), cutoff);
      assert KeyChecks(ops, k, key, cutoff) == KeyChecks(ops, k - 1, key, cutoff) +
        if op.Endpoint? && op.ip + ":" + op.endpoint == key && op.now > cutoff then {k - 1} else {};
    }
  }

  // ---------- the trackers agree with the full history ----------

  /** Stamps in order, none later than now. */
  ghost predicate Chronological(stamps: Stamps, now: int) {
    forall i, j :: 0 <= i <= j < |stamps| ==> stamps[i].time <= stamps[j].time <= now
  }

  ghost predicate Faithful(kept: Stamps, full: Stamps, window: int, now: int) {
    Chronological(kept, now) && Agree(kept, full, now - window)
  }

  lemma {:induction false} SinceChronological(stamps: Stamps, cutoff: int, now: int)
    requires Chronological(stamps, now)
    ensures Chronological(Since(stamps, cutoff), now)
  {
    if stamps == [] {
    } else {
      var front, last := stamps[..|stamps| - 1], stamps[|stamps| - 1];
      SinceChronological(front, cutoff, now);
      forall i: nat | i < |Since(front, cutoff)| ensures Since(front, cutoff)[i].time <= last.time {
        SinceMember(front, cutoff, i);
        var j :| 0 <= j < |front| && front[j] == Since(front, cutoff)[i];
        assert stamps[j].time <= last.time;
      }
    }
  }

  lemma NothingFaithful(window: int, now: int)
    ensures Faithful([], [], window, now)
  {
  }

  lemma FaithfulLater(kept: Stamps, full: Stamps, window: int, now: int, later: int)
    requires Faithful(kept, full, window, now) && now <= later
    ensures Faithful(kept, full, window, later)
  {
    AgreeLater(kept, full, now - window, later - window);
  }

  lemma FaithfulRecorded(tracker: Tracker, key: string, full: Stamps, window: int, now: int)
    requires Faithful(Kept(tracker, key), full, window, now) && window > 0
    ensures var kept := Kept(Recorded(tracker, key, window, now), key);
      Faithful(kept, full + [Stamped(now, ())], window, now) && kept == Since(full + [Stamped(now, ())], now - window)
  {
    hide Since, Agree;
    var x, kept := Stamped(now, ()), Kept(tracker, key);
    SinceChronological(kept, now - window, now);
    AgreePruned(kept, full, now - window);
    AgreeAppend(Since(kept, now - window), full, x, now - window);
    AgreeSince(kept, full, now - window);
    SinceAppend(full, x, now - window);
  }

  lemma FaithfulCleaned(tracker: Tracker, key: string, full: Stamps, window: int, now: int)
    requires Faithful(Kept(tracker, key), full, window, now)
    ensures Faithful(Kept(Cleaned(tracker, window, now), key), full, window, now)
  {
    if key in tracker && Stale(tracker[key], window, now) {
      var kept := tracker[key];
      assert forall i :: 0 <= i < |kept| ==> kept[i].time <= kept[|kept| - 1].time;
      SinceNothing(kept, now - window);
    }
  }

  lemma {:induction false} BurstFaithful(limits: Limits, ops: seq<Op>, k: nat, ip: string)
    requires limits.Valid() && Clocked(ops) && 0 < k <= |ops|
    ensures Faithful(Kept(RunUpTo(limits, ops, k).burst, ip), BurstCalls(ops, k, ip),
                     limits.burstWindow, ops[k - 1].now)
    ensures ops[k - 1].Burst? && ops[k - 1].ip == ip ==>
      Kept(RunUpTo(limits, ops, k).burst, ip) == Since(BurstCalls(ops, k, ip), ops[k - 1].now - limits.burstWindow)
  {
    hide Since, Faithful;
    var before, calls, op := RunUpTo(limits, ops, k - 1), BurstCalls(ops, k - 1, ip), ops[k - 1];
    if k > 1 {
      BurstFaithful(limits, ops, k - 1, ip);
      FaithfulLater(Kept(before.burst, ip), calls, limits.burstWindow, ops[k - 2].now, op.now);
    }
    if k == 1 {
      NothingFaithful(limits.burstWindow, op.now);
    }
    if op.Cleanup? {
      FaithfulCleaned(before.burst, ip, calls, limits.burstWindow, op.now);
    } else if op.Burst? && op.ip == ip {
      FaithfulRecorded(before.burst, ip, calls, limits.burstWindow, op.now);
    }
  }

  lemma {:induction false} EndpointFaithful(limits: Limits, ops: seq<Op>, k: nat, key: string)
    requires limits.Valid() && Clocked(ops) && 0 < k <= |ops|
    ensures Faithful(Kept(RunUpTo(limits, ops, k).endpoint, key), KeyCalls(ops, k, key),
                     limits.endpointWindow, ops[k - 1].now)
    ensures ops[k - 1].Endpoint? && EndpointKey(ops[k - 1].ip, ops[k - 1].endpoint) == key ==>
      Kept(RunUpTo(limits, ops, k).endpoint, key) ==
        Since(KeyCalls(ops, k, key), ops[k - 1].now - limits.endpointWindow)
  {
    hide Since, Faithful, EndpointKey;
    var before, calls, op := RunUpTo(limits, ops, k - 1), KeyCalls(ops, k - 1, key), ops[k - 1];
    if k > 1 {
      EndpointFaithful(limits, ops, k - 1, key);
      FaithfulLater(Kept(before.endpoint, key), calls, limits.endpointWindow, ops[k - 2].now, op.now);
    }
    if k == 1 {
      NothingFaithful(limits.endpointWindow, op.now);
    }
    if op.Cleanup? {
      FaithfulCleaned(before.endpoint, key, calls, limits.endpointWindow, op.now);
    } else if op.Endpoint? && EndpointKey(op.ip, op.endpoint) == key {
      FaithfulRecorded(before.endpoint, key, calls, limits.endpointWindow, op.now);
    }
  }

  /** A burst check passes if and only if the number of all burst checks ever made for the address
      in (now - window, now], this one included, is within the threshold, whatever was cleaned up. */
  lemma BurstAnswersExact(limits: Limits, ops: seq<Op>, k: nat)
    requires limits.Valid() && Clocked(ops) && k < |ops| && ops[k].Burst?
    ensures Answers(limits, ops, k) <==>
      |BurstChecks(ops, k + 1, ops[k].ip, ops[k].now - limits.burstWindow)| <= limits.burstThreshold
  {
    hide Since, Faithful, RunUpTo, BurstCalls, BurstChecks, Kept;
    BurstFaithful(limits, ops, k + 1, ops[k].ip);
    BurstCallsCounted(ops, k + 1, ops[k].ip, ops[k].now - limits.burstWindow);
  }

  // ---------- what a cleanup leaves ----------

  /** The tracker still knows the last call of a key, or has forgotten it because all calls are too old. */
  ghost predicate Tracks(tracker: Tracker, key: string, calls: Stamps, window: int, now: int) {
    && Chronological(calls, now)
    && if key in tracker then
         calls != [] && tracker[key] != [] && tracker[key][|tracker[key]| - 1] == calls[|calls| - 1]
       else forall i :: 0 <= i < |calls| ==> now - calls[i].time > window
  }

  lemma TracksLater(tracker: Tracker, key: string, calls: Stamps, window: int, now: int, later: int)
    requires Tracks(tracker, key, calls, window, now) && now <= later
    ensures Tracks(tracker, key, calls, window, later)
  {
  }

  lemma TracksRecorded(tracker: Tracker, key: string, calls: Stamps, window: int, now: int)
    requires Tracks(tracker, key, calls, window, now)
    ensures Tracks(Recorded(tracker, key, window, now), key, calls + [Stamped(now, ())], window, now)
  {
  }

  lemma TracksCleaned(tracker: Tracker, key: string, calls: Stamps, window: int, now: int)
    requires Tracks(tracker, key, calls, window, now)
    ensures Tracks(Cleaned(tracker, window, now), key, calls, window, now)
    ensures key in Cleaned(tracker, window, now) <==> |Since(calls, now - window - 1)| > 0
  {
    if key in Cleaned(tracker, window, now) {
      var front, last := calls[..|calls| - 1], calls[|calls| - 1];
      assert calls == front + [last];
      SinceAppend(front, last, now - window - 1);
    } else {
      assert forall i :: 0 <= i < |calls| ==> calls[i].time <= calls[|calls| - 1].time;
      SinceNothing(calls, now - window - 1);
    }
  }

  lemma {:induction false} BurstTracked(limits: Limits, ops: seq<Op>, k: nat, ip: string)
    requires Clocked(ops) && 0 < k <= |ops|
    ensures Tracks(RunUpTo(limits, ops, k).burst, ip, BurstCalls(ops, k, ip), limits.burstWindow, ops[k - 1].now)
    ensures ops[k - 1].Cleanup? ==> (ip in RunUpTo(limits, ops, k).burst <==>
      |Since(BurstCalls(ops, k, ip), ops[k - 1].now - limits.burstWindow - 1)| > 0)
  {
    hide Since, Stale;
    var before, calls, op := RunUpTo(limits, ops, k - 1), BurstCalls(ops, k - 1, ip), ops[k - 1];
    if k > 1 {
      BurstTracked(limits, ops, k - 1, ip);
      TracksLater(before.burst, ip, calls, limits.burstWindow, ops[k - 2].now, op.now);
    }
    if op.Cleanup? {
      TracksCleaned(before.burst, ip, calls, limits.burstWindow, op.now);
    } else if op.Burst? && op.ip == ip {
      TracksRecorded(before.burst, ip, calls, limits.burstWindow, op.now);
    }
  }

  lemma {:induction false} EndpointTracked(limits: Limits, ops: seq<Op>, k: nat, key: string)
    requires Clocked(ops) && 0 < k <= |ops|
    ensures Tracks(RunUpTo(limits, ops, k).endpoint, key, KeyCalls(ops, k, key),
                   limits.endpointWindow, ops[k - 1].now)
    ensures ops[k - 1].Cleanup? ==> (key in RunUpTo(limits, ops, k).endpoint <==>
      |Since(KeyCalls(ops, k, key), ops[k - 1].now - limits.endpointWindow - 1)| > 0)
  {
    hide Since, Stale, EndpointKey;
    var before, calls, op := RunUpTo(limits, ops, k - 1), KeyCalls(ops, k - 1, key), ops[k - 1];
    if k > 1 {
      EndpointTracked(limits, ops, k - 1, key);
      TracksLater(before.endpoint, key, calls, limits.endpointWindow, ops[k - 2].now, op.now);
    }
    if op.Cleanup? {
      TracksCleaned(before.endpoint, key, calls, limits.endpointWindow, op.now);
    } else if op.Endpoint? && EndpointKey(op.ip, op.endpoint) == key {
      TracksRecorded(before.endpoint, key, calls, limits.endpointWindow, op.now);
    }
  }

  /** A cleanup anywhere in a run leaves exactly the addresses with a burst check, and the keys with an endpoint
      check, that is no older than the window. */
  lemma CleanupLeavesExactly(limits: Limits, ops: seq<Op>, k: nat, key: string)
    requires Clocked(ops) && k < |ops| && ops[k].Cleanup?
    ensures key in RunUpTo(limits, ops, k + 1).burst <==>
      exists i :: 0 <= i < k && ops[i].Burst? && ops[i].ip == key && ops[i].now >= ops[k].now - limits.burstWindow
    ensures key in RunUpTo(limits, ops, k + 1).endpoint <==>
      exists i :: 0 <= i < k && ops[i].Endpoint? && ops[i].ip + ":" + ops[i].endpoint == key
               && ops[i].now >= ops[k].now - limits.endpointWindow
  {
    hide RunUpTo, Since, BurstCalls, KeyCalls, Tracks;
    BurstTracked(limits, ops, k + 1, key);
    BurstsLeft(ops, k, key, ops[k].now - limits.burstWindow);
    EndpointTracked(limits, ops, k + 1, key);
    ChecksLeft(ops, k, key, ops[k].now - limits.endpointWindow);
  }

  lemma BurstsLeft(ops: seq<Op>, k: nat, ip: string, start: int)
    requires k < |ops| && ops[k].Cleanup?
    ensures |Since(BurstCalls(ops, k + 1, ip), start - 1)| > 0 <==>
      exists i :: 0 <= i < k && ops[i].Burst? && ops[i].ip == ip && ops[i].now >= start
  {
    hide Since;
    var checks := BurstChecks(ops, k + 1, ip, start - 1);
    BurstCallsCounted(ops, k + 1, ip, start - 1);
    if |checks| > 0 {
      var i :| i in checks;
    }
    if i :| 0 <= i < k && ops[i].Burst? && ops[i].ip == ip && ops[i].now >= start {
      assert i in checks;
    }
  }

  lemma ChecksLeft(ops: seq<Op>, k: nat, key: string, start: int)
    requires k < |ops| && ops[k].Cleanup?
    ensures |Since(KeyCalls(ops, k + 1, key), start - 1)| > 0 <==>
      exists i :: 0 <= i < k && ops[i].Endpoint? && ops[i].ip + ":" + ops[i].endpoint == key && ops[i].now >= start
  {
    hide Since;
    var checks := KeyChecks(ops, k + 1, key, start - 1);
    KeyCallsCounted(ops, k + 1, key, start - 1);
    if |checks| > 0 {
      var i :| i in checks;
    }
    if i :| 0 <= i < k && ops[i].Endpoint? && ops[i].ip + ":" + ops[i].endpoint == key && ops[i].now >= start {
      assert i in checks;
    }
  }

  // ---------- endpoint checks ----------

  ghost function KeyCount(limits: Limits, ops: seq<Op>, k: nat): nat
    requires k < |ops| && ops[k].Endpoint?
  {
    |KeyChecks(ops, k + 1, ops[k].ip + ":" + ops[k].endpoint, ops[k].now - limits.endpointWindow)|
  }

  ghost function PairCount(limits: Limits, ops: seq<Op>, k: nat): nat
    requires k < |ops| && ops[k].Endpoint?
  {
    |PairChecks(ops, k + 1, ops[k].ip, ops[k].endpoint, ops[k].now - limits.endpointWindow)|
  }

  /** In every run, an endpoint check passes if and only if the number of all checks ever made under its
      key in (now - window, now] is within the threshold, whatever was cleaned up. */
  lemma EndpointAnswersByKey(limits: Limits, ops: seq<Op>, k: nat)
    requires limits.Valid() && Clocked(ops) && k < |ops| && ops[k].Endpoint?
    ensures Answers(limits, ops, k) <==> KeyCount(limits, ops, k) <= limits.endpointThreshold
  {
    hide Since, Faithful, RunUpTo, KeyCalls, KeyChecks, Kept;
    EndpointFaithful(limits, ops, k + 1, EndpointKey(ops[k].ip, ops[k].endpoint));
    KeyCallsCounted(ops, k + 1, EndpointKey(ops[k].ip, ops[k].endpoint), ops[k].now - limits.endpointWindow);
  }

  /** Operation i is a check of another pair under the same key, after the cutoff. */
  ghost predicate Intrudes(ops: seq<Op>, i: nat, ip: string, endpoint: string, cutoff: int)
    requires i < |ops|
  {
    ops[i].Endpoint? && ops[i].now > cutoff && Collide(ops[i].ip, ops[i].endpoint, ip, endpoint)
  }

  ghost predicate Undisturbed(ops: seq<Op>, k: nat, ip: string, endpoint: string, cutoff: int)
    requires k <= |ops|
  {
    forall i: nat :: i < k ==> !Intrudes(ops, i, ip, endpoint, cutoff)
  }

  /** The checks of a pair are among those of its key, and are all of them exactly if none intrudes. */
  lemma PairsAmongKeys(ops: seq<Op>, k: nat, ip: string, endpoint: string, cutoff: int)
    requires k <= |ops|
    ensures var pairs, keys := PairChecks(ops, k, ip, endpoint, cutoff), KeyChecks(ops, k, ip + ":" + endpoint, cutoff);
      pairs <= keys && |pairs| <= |keys| && (|pairs| == |keys| <==> Undisturbed(ops, k, ip, endpoint, cutoff))
  {
    var pairs, keys := PairChecks(ops, k, ip, endpoint, cutoff), KeyChecks(ops, k, ip + ":" + endpoint, cutoff);
    assert keys == pairs + (keys - pairs);
    forall i: nat | i < k ensures Intrudes(ops, i, ip, endpoint, cutoff) <==> i in keys - pairs {}
    if |pairs| != |keys| {
      var i :| i in keys - pairs;
      assert Intrudes(ops, i, ip, endpoint, cutoff);
    }
  }

  /** In every run, the check thus counts the calls of its pair if and only if no colliding pair was
      checked within the window; and then, but not in general, it passes exactly when that count is
      within the threshold. It never passes when the count of the pair is over the threshold. */
  lemma EndpointAnswersExact(limits: Limits, ops: seq<Op>, k: nat)
    requires limits.Valid() && Clocked(ops) && k < |ops| && ops[k].Endpoint?
    ensures var quiet := Undisturbed(ops, k + 1, ops[k].ip, ops[k].endpoint, ops[k].now - limits.endpointWindow);
      && (PairCount(limits, ops, k) == KeyCount(limits, ops, k) <==> quiet)
      && (quiet ==> (Answers(limits, ops, k) <==> PairCount(limits, ops, k) <= limits.endpointThreshold))
      && (Answers(limits, ops, k) ==> PairCount(limits, ops, k) <= limits.endpointThreshold)
  {
    hide Answers, Undisturbed, PairChecks, KeyChecks;
    EndpointAnswersByKey(limits, ops, k);
    PairsAmongKeys(ops, k + 1, ops[k].ip, ops[k].endpoint, ops[k].now - limits.endpointWindow);
  }

  ghost predicate AllSeparable(ops: seq<Op>) {
    forall k :: 0 <= k < |ops| && ops[k].Endpoint? ==> Separable(ops[k].ip, ops[k].endpoint)
  }

  /** Addresses without '/' and paths that start with it keep the pairs apart in every run. */
  lemma SeparableAnswersExact(limits: Limits, ops: seq<Op>, k: nat)
    requires limits.Valid() && Clocked(ops) && AllSeparable(ops) && k < |ops| && ops[k].Endpoint?
    ensures Answers(limits, ops, k) <==> PairCount(limits, ops, k) <= limits.endpointThreshold
  {
    hide Answers, PairCount, KeyCount, EndpointKey, Separable;
    EndpointAnswersExact(limits, ops, k);
    var cutoff := ops[k].now - limits.endpointWindow;
    forall i: nat | i < k + 1 ensures !Intrudes(ops, i, ops[k].ip, ops[k].endpoint, cutoff) {
      if ops[i].Endpoint? && EndpointKey(ops[i].ip, ops[i].endpoint) == EndpointKey(ops[k].ip, ops[k].endpoint) {
        EndpointKeyInjective(ops[i].ip, ops[i].endpoint, ops[k].ip, ops[k].endpoint);
      }
    }
  }

  /** n checks of one pair and then one check of another, all at the same time. */
  function Crowd(n: nat, ip: string, endpoint: string, ip': string, endpoint': string): (ops: seq<Op>)
    ensures |ops| == n + 1 && Clocked(ops)
  {
    seq(n, _ => Op.Endpoint(ip, endpoint, 0)) + [Op.Endpoint(ip', endpoint', 0)]
  }

  /** Every collision is visible: under any limits, some run rejects a check although the calls of its pair
      within the window, this one alone, are within the threshold. */
  lemma CollisionChangesAnswer(limits: Limits, ip: string, endpoint: string, ip': string, endpoint': string)
    requires limits.Valid() && Collide(ip, endpoint, ip', endpoint')
    ensures var ops, k := Crowd(limits.endpointThreshold, ip, endpoint, ip', endpoint'), limits.endpointThreshold;
      !Answers(limits, ops, k) && PairCount(limits, ops, k) == 1 <= limits.endpointThreshold
  {
    hide Answers;
    var n := limits.endpointThreshold;
    var ops := Crowd(n, ip, endpoint, ip', endpoint');
    EndpointAnswersByKey(limits, ops, n);
    RangeSize(KeyChecks(ops, n + 1, ip' + ":" + endpoint', -limits.endpointWindow), n + 1);
    assert PairChecks(ops, n + 1, ip', endpoint', -limits.endpointWindow) == {n};
  }

  type Pairs = iset<(string, string)>

  /** All endpoint checks of the run are about these pairs. */
  ghost predicate About(ops: seq<Op>, pairs: Pairs) {
    forall i :: 0 <= i < |ops| && ops[i].Endpoint? ==> (ops[i].ip, ops[i].endpoint) in pairs
  }

  ghost predicate KeptApart(pairs: Pairs) {
    forall p, q :: p in pairs && q in pairs ==> !Collide(p.0, p.1, q.0, q.1)
  }

  /** The check at position k is answered by the count of its own pair. */
  ghost predicate AnsweredByPair(limits: Limits, ops: seq<Op>, k: nat)
    requires k < |ops| && ops[k].Endpoint?
  {
    Answers(limits, ops, k) <==> PairCount(limits, ops, k) <= limits.endpointThreshold
  }

  lemma ApartAnswers(limits: Limits, pairs: Pairs, ops: seq<Op>, k: nat)
    requires limits.Valid() && Clocked(ops) && About(ops, pairs) && k < |ops| && ops[k].Endpoint? && KeptApart(pairs)
    ensures AnsweredByPair(limits, ops, k)
  {
    hide Answers, PairCount, KeyCount, Collide;
    EndpointAnswersExact(limits, ops, k);
    var here := (ops[k].ip, ops[k].endpoint);
    var cutoff := ops[k].now - limits.endpointWindow;
    forall i: nat | i < k + 1 ensures !Intrudes(ops, i, here.0, here.1, cutoff) {
      if ops[i].Endpoint? {
        var there := (ops[i].ip, ops[i].endpoint);
        assert there in pairs && here in pairs;
        assert !Collide(there.0, there.1, here.0, here.1);
      }
    }
  }

  /** For any limits and any set of pairs: all runs over these pairs answer every check by the count of its
      own pair if and only if no two of the pairs collide. */
  lemma PairsKeptApartExactly(limits: Limits, pairs: Pairs)
    requires limits.Valid()
    ensures (forall ops: seq<Op>, k: nat ::
              Clocked(ops) && About(ops, pairs) && k < |ops| && ops[k].Endpoint? ==> AnsweredByPair(limits, ops, k))
            <==> KeptApart(pairs)
  {
    hide Answers, PairCount, Collide, Clocked;
    if KeptApart(pairs) {
      forall ops: seq<Op>, k: nat | Clocked(ops) && About(ops, pairs) && k < |ops| && ops[k].Endpoint?
        ensures AnsweredByPair(limits, ops, k)
      {
        ApartAnswers(limits, pairs, ops, k);
      }
    } else {
      var p, q :| p in pairs && q in pairs && Collide(p.0, p.1, q.0, q.1);
      var ops, k := Crowd(limits.endpointThreshold, p.0, p.1, q.0, q.1), limits.endpointThreshold;
      CollisionChangesAnswer(limits, p.0, p.1, q.0, q.1);
      assert (p.0, p.1) == p && (q.0, q.1) == q;
      assert About(ops, pairs) && !AnsweredByPair(limits, ops, k);
    }
  }

  // ---------- the object ----------

  class Rules {
    const limits: Limits
    var burstTracker: Tracker
    var endpointTracker: Tracker

    ghost function Abs(): State
      reads this
    {
      State(burstTracker, endpointTracker)
    }

    constructor (limits: Limits)
      requires limits.Valid()
      ensures this.limits == limits && Abs() == State(map[], map[])
    {
      this.limits := limits;
      burstTracker, endpointTracker := map[], map[];
    }

    method CheckBurst(ip: string, now: int) returns (allowed: bool)
      modifies this
      ensures Abs() == Step(limits, old(Abs()), Burst(ip, now))
      ensures allowed <==> |Kept(Abs().burst, ip)| <= limits.burstThreshold
    {
      var count;
      burstTracker, count := RecordRequest(burstTracker, ip, limits.burstWindow, now);
      allowed := count <= limits.burstThreshold;
    }

    method CheckEndpointAbuse(ip: string, endpoint: string, now: int) returns (allowed: bool)
      modifies this
      ensures Abs() == Step(limits, old(Abs()), Endpoint(ip, endpoint, now))
      ensures allowed <==> |Kept(Abs().endpoint, EndpointKey(ip, endpoint))| <= limits.endpointThreshold
    {
      var key := ip + ":" + endpoint;
      var count;
      endpointTracker, count := RecordRequest(endpointTracker, key, limits.endpointWindow, now);
      allowed := count <= limits.endpointThreshold;
    }

    method CleanUp(now: int)
      modifies this
      ensures Abs() == Step(limits, old(Abs()), Cleanup(now))
    {
      burstTracker := CleanTracker(burstTracker, limits.burstWindow, now);
      endpointTracker := CleanTracker(endpointTracker, limits.endpointWindow, now);
    }
  }
}
