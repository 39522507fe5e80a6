/** The rate limiter in front of the server: with few peers and prompt tasks the capacity of the replay window follows,
    and with it at-most-once execution. */
module Throughput {
  import opened Wrappers
  import opened Ints
  import opened Net
  import opened Replay
  import opened Packet
  import opened Server
  import opened Limiter

  // ---- A task adds twice at most ----

  /** What a task has added so far: nothing, its packet's pair, or that and its response's. */
  ghost predicate OwnerOk(adds: seq<Addition>, t: nat, task: Task) {
    match task.phase
    case Arrived => forall i :: 0 <= i < |adds| ==> adds[i].owner != t
    case Registered(_) => true
    case Finished => true
    case _ => forall i :: 0 <= i < |adds| && adds[i].owner == t ==> adds[i].accepted
  }

  ghost predicate OwnersInv(s: State) {
    && (forall t :: 0 <= t < |s.tasks| ==> OwnerOk(s.adds, t, s.tasks[t]))
    && (forall i :: 0 <= i < |s.adds| ==> s.adds[i].owner < |s.tasks|)
    && (forall i, j :: 0 <= i < j < |s.adds| && s.adds[i].owner == s.adds[j].owner ==>
          s.adds[i].accepted && !s.adds[j].accepted)
  }

  lemma StepKeepsOwners(c: Config, s: State, step: Step)
    requires OwnersInv(s) && Enabled(c, s, step)
    ensures OwnersInv(Apply(c, s, step))
  {
    hide DecryptPacket, Accepts, Pruned, Pushed, Frame, TrimHash, CommandOutput;
    var s' := Apply(c, s, step);
    if !step.Tick? && !step.Receive? {
      assert OwnerOk(s.adds, step.t, s.tasks[step.t]);
    }
    forall t | 0 <= t < |s'.tasks|
      ensures OwnerOk(s'.adds, t, s'.tasks[t])
    {
      if t < |s.tasks| {
        assert OwnerOk(s.adds, t, s.tasks[t]);
      }
    }
  }

  lemma {:induction false} RunKeepsOwners(c: Config, start: i64, steps: seq<Step>)
    requires Run(c, start, steps).Some?
    ensures OwnersInv(Run(c, start, steps).value)
  {
    if steps == [] {
    } else {
      RunKeepsOwners(c, start, steps[..|steps| - 1]);
      StepKeepsOwners(c, Run(c, start, steps[..|steps| - 1]).value, steps[|steps| - 1]);
    }
  }

  /** The tasks that made an addition of one kind among those from `lo` below `hi`. */
  ghost function Owners(adds: seq<Addition>, lo: nat, hi: nat, accepted: bool): set<nat>
    requires hi <= |adds|
  {
    set k | lo <= k < hi && adds[k].accepted == accepted :: adds[k].owner
  }

  lemma OwnersGrow(adds: seq<Addition>, lo: nat, hi: nat, accepted: bool)
    requires lo <= hi < |adds|
    ensures Owners(adds, lo, hi + 1, accepted)
         == Owners(adds, lo, hi, accepted) + if adds[hi].accepted == accepted then {adds[hi].owner} else {}
  {
  }

  lemma OwnerIsNew(s: State, lo: nat, k: nat)
    requires OwnersInv(s) && lo <= k < |s.adds|
    ensures s.adds[k].owner !in Owners(s.adds, lo, k, s.adds[k].accepted)
  {
    hide OwnerOk;
  }

  lemma NoOwners(adds: seq<Addition>, lo: nat, accepted: bool)
    requires lo <= |adds|
    ensures Owners(adds, lo, lo, accepted) == {}
  {
  }

  /** Each addition of a stretch has its own task among those of its kind. */
  lemma {:induction false} StretchHasOwners(s: State, lo: nat, hi: nat)
    requires OwnersInv(s) && lo <= hi <= |s.adds|
    ensures hi - lo == |Owners(s.adds, lo, hi, true)| + |Owners(s.adds, lo, hi, false)|
    decreases hi
  {
    hide OwnersInv, Owners;
    if hi == lo {
      NoOwners(s.adds, lo, true);
      NoOwners(s.adds, lo, false);
    } else {
      StretchHasOwners(s, lo, hi - 1);
      OwnersGrow(s.adds, lo, hi - 1, true);
      OwnersGrow(s.adds, lo, hi - 1, false);
      OwnerIsNew(s, lo, hi - 1);
    }
  }

  // ---- The calls behind the tasks ----

  /** The `t`-th task of the server runs the packet of the call `source[t]`, which the limiter allowed. */
  ghost predicate Admitted(p: Params, calls: seq<Call>, source: seq<nat>, tasks: seq<Task>) {
    && |source| == |tasks|
    && (forall t, u :: 0 <= t < u < |source| ==> source[t] < source[u])
    && (forall t :: 0 <= t < |source| ==> source[t] < |calls| && Allowed(p, Evicting, calls, source[t]))
  }

  /** Each addition is made within `delay` seconds of the arrival of its task's packet; the replay window's clock shows
      whole seconds, `offset` ahead of the limiter's instants. */
  ghost predicate Punctual(
      calls: seq<Call>, source: seq<nat>, adds: seq<Addition>, times: seq<real>, delay: real, offset: real)
    requires forall t :: 0 <= t < |source| ==> source[t] < |calls|
  {
    && |times| == |adds|
    && forall i :: 0 <= i < |adds| ==>
         && adds[i].owner < |source|
         && calls[source[adds[i].owner]].now <= times[i] <= calls[source[adds[i].owner]].now + delay
         && adds[i].at as real <= times[i] + offset < adds[i].at as real + 1.0
  }

  ghost predicate FromPeers(calls: seq<Call>, peers: set<IpAddr>) {
    forall i :: 0 <= i < |calls| ==> calls[i].ip in peers
  }

  /** The allowed calls of some peers among the indices from `lo` below `hi`. */
  ghost function AllowedBy(calls: seq<Call>, ds: seq<bool>, peers: set<IpAddr>, lo: nat, hi: nat): set<nat>
    requires hi <= |calls| == |ds|
  {
    set k: nat | lo <= k < hi && ds[k] && calls[k].ip in peers
  }

  lemma {:induction false} AllowedByOne(calls: seq<Call>, ds: seq<bool>, ip: IpAddr, lo: nat, hi: nat)
    requires lo <= hi <= |calls| == |ds|
    ensures |AllowedBy(calls, ds, {ip}, lo, hi)| == Count(calls, ds, ip, lo, hi)
    decreases hi
  {
    if hi == lo {
      assert AllowedBy(calls, ds, {ip}, lo, hi) == {};
    } else {
      var k := hi - 1;
      AllowedByOne(calls, ds, ip, lo, k);
      assert AllowedBy(calls, ds, {ip}, lo, hi)
          == AllowedBy(calls, ds, {ip}, lo, k) + if calls[k].ip == ip && ds[k] then {k} else {};
    }
  }

  lemma AllowedBySplit(calls: seq<Call>, ds: seq<bool>, peers: set<IpAddr>, ip: IpAddr, lo: nat, hi: nat)
    requires hi <= |calls| == |ds| && ip in peers
    ensures |AllowedBy(calls, ds, peers, lo, hi)|
         <= |AllowedBy(calls, ds, peers - {ip}, lo, hi)| + |AllowedBy(calls, ds, {ip}, lo, hi)|
  {
    assert AllowedBy(calls, ds, peers, lo, hi)
        == AllowedBy(calls, ds, peers - {ip}, lo, hi) + AllowedBy(calls, ds, {ip}, lo, hi);
  }

  /** Bounds for the peers add up. */
  lemma {:induction false} AllowedBySum(
      calls: seq<Call>, ds: seq<bool>, peers: set<IpAddr>, lo: nat, hi: nat, bound: real)
    requires lo <= hi <= |calls| == |ds|
    requires forall ip :: ip in peers ==> Count(calls, ds, ip, lo, hi) as real <= bound
    ensures |AllowedBy(calls, ds, peers, lo, hi)| as real <= |peers| as real * bound
    decreases |peers|
  {
    hide AllowedBy, Count;
    if peers == {} {
      NoneAllowed(calls, ds, lo, hi);
    } else {
      var ip :| ip in peers;
      var rest := peers - {ip};
      AllowedBySum(calls, ds, rest, lo, hi, bound);
      AllowedBySplit(calls, ds, peers, ip, lo, hi);
      AllowedByOne(calls, ds, ip, lo, hi);
      SumStep(|AllowedBy(calls, ds, rest, lo, hi)| as real, |AllowedBy(calls, ds, {ip}, lo, hi)| as real,
              |rest| as real, |peers| as real, bound);
    }
  }

  lemma SumStep(a: real, b: real, n: real, m: real, bound: real)
    requires m == n + 1.0 && a <= n * bound && b <= bound
    ensures a + b <= m * bound
  {
    assert m * bound == n * bound + bound;
  }

  lemma NoneAllowed(calls: seq<Call>, ds: seq<bool>, lo: nat, hi: nat)
    requires hi <= |calls| == |ds|
    ensures AllowedBy(calls, ds, {}, lo, hi) == {}
  {
  }

  /** The calls behind some tasks. */
  ghost function Sources(source: seq<nat>, ts: set<nat>): set<nat>
    requires forall t :: t in ts ==> t < |source|
  {
    set t | t in ts :: source[t]
  }

  lemma SourcesGrow(source: seq<nat>, ts: set<nat>, x: nat)
    requires forall t :: t in ts ==> t < |source|
    requires forall t, u :: 0 <= t < u < |source| ==> source[t] < source[u]
    requires x < |source| && x !in ts
    ensures Sources(source, ts + {x}) == Sources(source, ts) + {source[x]} && source[x] !in Sources(source, ts)
  {
  }

  lemma {:induction false} SourcesAreAsMany(source: seq<nat>, ts: set<nat>)
    requires forall t :: t in ts ==> t < |source|
    requires forall t, u :: 0 <= t < u < |source| ==> source[t] < source[u]
    ensures |Sources(source, ts)| == |ts|
    decreases |ts|
  {
    if ts == {} {
    } else {
      var x :| x in ts;
      var rest := ts - {x};
      SourcesAreAsMany(source, rest);
      SourcesGrow(source, rest, x);
      hide Sources;
      assert ts == rest + {x};
    }
  }

  lemma SmallerSet(a: set<nat>, b: set<nat>)
    requires a <= b
    ensures |a| <= |b|
  {
    assert b == a + (b - a);
  }

  // ---- The bound ----

  /** What a limiter allows each peer in any interval of this length. */
  ghost function PeerBound(p: Params, length: real): real {
    p.burst + length * p.rate
  }

  /** The tasks' calls are allowed calls between the first of them and the last. */
  lemma SourcesAllowed(
      p: Params, calls: seq<Call>, source: seq<nat>, tasks: seq<Task>, peers: set<IpAddr>, ts: set<nat>,
      first: nat, last: nat)
    requires Admitted(p, calls, source, tasks) && FromPeers(calls, peers)
    requires forall t :: t in ts ==> t < |source| && first <= t <= last
    requires first in ts && last in ts
    ensures var ds := Answers(p, Evicting, calls);
            Sources(source, ts) <= AllowedBy(calls, ds, peers, source[first], source[last] + 1)
  {
    hide Allowed;
    var ds := Answers(p, Evicting, calls);
    forall k | k in Sources(source, ts)
      ensures k in AllowedBy(calls, ds, peers, source[first], source[last] + 1)
    {
      var t :| t in ts && source[t] == k;
      assert source[first] <= k <= source[last];
      assert ds[k] == Allowed(p, Evicting, calls, k);
    }
  }

  /** Tasks whose calls lie in an interval are no more than the calls allowed to the peers in a stretch of it. */
  lemma TasksAreCalls(
      p: Params, calls: seq<Call>, source: seq<nat>, tasks: seq<Task>, peers: set<IpAddr>, ts: set<nat>,
      from: real, to: real)
    returns (lo: nat, hi: nat)
    requires Timely(calls) && Admitted(p, calls, source, tasks) && FromPeers(calls, peers) && ts != {}
    requires forall t :: t in ts ==> t < |source| && from <= calls[source[t]].now <= to
    ensures lo < hi <= |calls| && |ts| <= |AllowedBy(calls, Answers(p, Evicting, calls), peers, lo, hi)|
    ensures forall i :: lo <= i < hi ==> from <= calls[i].now <= to
  {
    hide Allowed;
    var first, last := FirstLast(ts);
    lo, hi := source[first], source[last] + 1;
    assert first == last || source[first] < source[last];
    SourcesAreAsMany(source, ts);
    SourcesAllowed(p, calls, source, tasks, peers, ts, first, last);
    CallsBetween(calls, lo, hi, from, to);
    hide Sources, AllowedBy, Timely;
    SmallerSet(Sources(source, ts), AllowedBy(calls, Answers(p, Evicting, calls), peers, lo, hi));
  }

  lemma PeerBounded(p: Params, calls: seq<Call>, ip: IpAddr, lo: nat, hi: nat, from: real, to: real)
    requires Plausible(p) && (Patient(p) || p.burst < 1.0) && Timely(calls) && lo <= hi <= |calls| && from <= to
    requires forall i :: lo <= i < hi ==> from <= calls[i].now <= to
    ensures Count(calls, Answers(p, Evicting, calls), ip, lo, hi) as real <= PeerBound(p, to - from)
  {
    hide Patient, Timely, Answers, Count;
    BoundAt(p, calls, ip, lo, hi, from, to);
  }

  lemma CallsInInterval(
      p: Params, calls: seq<Call>, peers: set<IpAddr>, lo: nat, hi: nat, from: real, to: real)
    requires Plausible(p) && (Patient(p) || p.burst < 1.0) && Timely(calls) && lo <= hi <= |calls| && from <= to
    requires forall i :: lo <= i < hi ==> from <= calls[i].now <= to
    ensures |AllowedBy(calls, Answers(p, Evicting, calls), peers, lo, hi)| as real
            <= |peers| as real * PeerBound(p, to - from)
  {
    hide Plausible, Patient, Timely, Answers, Count, AllowedBy, PeerBound;
    forall ip | ip in peers
      ensures Count(calls, Answers(p, Evicting, calls), ip, lo, hi) as real <= PeerBound(p, to - from)
    {
      PeerBounded(p, calls, ip, lo, hi, from, to);
    }
    AllowedBySum(calls, Answers(p, Evicting, calls), peers, lo, hi, PeerBound(p, to - from));
  }

  /** Tasks whose calls lie in an interval number at most the peers' bounds together. */
  lemma TasksInInterval(
      p: Params, calls: seq<Call>, source: seq<nat>, tasks: seq<Task>, peers: set<IpAddr>, ts: set<nat>,
      from: real, to: real)
    requires Plausible(p) && (Patient(p) || p.burst < 1.0) && Timely(calls) && from <= to
    requires Admitted(p, calls, source, tasks) && FromPeers(calls, peers) && ts != {}
    requires forall t :: t in ts ==> t < |source| && from <= calls[source[t]].now <= to
    ensures |ts| as real <= |peers| as real * PeerBound(p, to - from)
  {
    hide Plausible, Patient, Timely, Answers, AllowedBy, PeerBound, FromPeers;
    var lo, hi := TasksAreCalls(p, calls, source, tasks, peers, ts, from, to);
    CallsInInterval(p, calls, peers, lo, hi, from, to);
  }

  lemma CallsBetween(calls: seq<Call>, lo: nat, hi: nat, from: real, to: real)
    requires Timely(calls) && lo < hi <= |calls| && from <= calls[lo].now && calls[hi - 1].now <= to
    ensures forall i :: lo <= i < hi ==> from <= calls[i].now <= to
  {
    forall i | lo <= i < hi
      ensures from <= calls[i].now <= to
    {
      assert calls[lo].now <= calls[i].now <= calls[hi - 1].now;
    }
  }

  lemma FirstLast(ts: set<nat>) returns (first: nat, last: nat)
    requires ts != {}
    ensures first in ts && last in ts && forall t :: t in ts ==> first <= t <= last
    decreases |ts|
  {
    var x :| x in ts;
    var rest := ts - {x};
    if rest == {} {
      first, last := x, x;
      assert ts == {x};
    } else {
      first, last := FirstLast(rest);
      assert ts == rest + {x};
      first, last := if x < first then x else first, if x > last then x else last;
    }
  }

  /** When an addition among those from `lo` to `hi` is made, its task's call is recent. */
  lemma CallIsRecent(
      calls: seq<Call>, source: seq<nat>, adds: seq<Addition>, times: seq<real>, delay: real, offset: real,
      lo: nat, hi: nat, k: nat)
    requires forall t :: 0 <= t < |source| ==> source[t] < |calls|
    requires Punctual(calls, source, adds, times, delay, offset) && lo <= k <= hi < |adds|
    requires forall i, j :: 0 <= i < j < |adds| ==> adds[i].at <= adds[j].at
    ensures adds[k].owner < |source|
    ensures var now := calls[source[adds[k].owner]].now;
            adds[lo].at as real - offset - delay <= now <= adds[hi].at as real + 1.0 - offset
  {
    assert adds[lo].at <= adds[k].at <= adds[hi].at;
  }

  lemma OwnersAreRecent(
      calls: seq<Call>, source: seq<nat>, adds: seq<Addition>, times: seq<real>, delay: real, offset: real,
      lo: nat, hi: nat, accepted: bool, t: nat)
    requires forall t :: 0 <= t < |source| ==> source[t] < |calls|
    requires Punctual(calls, source, adds, times, delay, offset) && lo <= hi < |adds|
    requires forall i, j :: 0 <= i < j < |adds| ==> adds[i].at <= adds[j].at
    requires t in Owners(adds, lo, hi + 1, accepted)
    ensures t < |source|
    ensures adds[lo].at as real - offset - delay <= calls[source[t]].now <= adds[hi].at as real + 1.0 - offset
  {
    var k :| lo <= k < hi + 1 && adds[k].accepted == accepted && adds[k].owner == t;
    hide Punctual, Owners;
    CallIsRecent(calls, source, adds, times, delay, offset, lo, hi, k);
  }

  /** The tasks behind one kind of additions in a span of twice the window. */
  lemma OwnersInSpan(
      c: Config, s: State, p: Params, calls: seq<Call>, source: seq<nat>, times: seq<real>, delay: real,
      offset: real, peers: set<IpAddr>, lo: nat, hi: nat, accepted: bool)
    requires Plausible(p) && (Patient(p) || p.burst < 1.0) && Timely(calls) && delay >= 0.0
    requires Admitted(p, calls, source, s.tasks) && FromPeers(calls, peers)
    requires Punctual(calls, source, s.adds, times, delay, offset)
    requires forall i, j :: 0 <= i < j < |s.adds| ==> s.adds[i].at <= s.adds[j].at
    requires lo <= hi < |s.adds| && s.adds[hi].at - s.adds[lo].at <= 2 * c.window
    ensures |Owners(s.adds, lo, hi + 1, accepted)| as real
            <= |peers| as real * PeerBound(p, (2 * c.window + 1) as real + delay)
  {
    assert forall t :: 0 <= t < |source| ==> source[t] < |calls|;
    hide Owners, Punctual, Admitted, Timely, Patient, PeerBound, Plausible, FromPeers;
    var owners := Owners(s.adds, lo, hi + 1, accepted);
    var from, to := s.adds[lo].at as real - offset - delay, s.adds[hi].at as real + 1.0 - offset;
    assert s.adds[lo].at <= s.adds[hi].at;
    forall t | t in owners
      ensures t < |source| && from <= calls[source[t]].now <= to
    {
      OwnersAreRecent(calls, source, s.adds, times, delay, offset, lo, hi, accepted, t);
    }
    TasksWithin(p, calls, source, s.tasks, peers, owners, from, to, (2 * c.window + 1) as real + delay);
  }

  /** Tasks whose calls lie in an interval no longer than `length`. */
  lemma TasksWithin(
      p: Params, calls: seq<Call>, source: seq<nat>, tasks: seq<Task>, peers: set<IpAddr>, ts: set<nat>,
      from: real, to: real, length: real)
    requires Plausible(p) && (Patient(p) || p.burst < 1.0) && Timely(calls) && 0.0 <= to - from <= length
    requires Admitted(p, calls, source, tasks) && FromPeers(calls, peers)
    requires forall t :: t in ts ==> t < |source| && from <= calls[source[t]].now <= to
    ensures |ts| as real <= |peers| as real * PeerBound(p, length)
  {
    hide Admitted, Timely, Patient, PeerBound, Plausible, FromPeers;
    BoundGrows(p, to - from, length);
    Weighed(|peers| as real, PeerBound(p, to - from), PeerBound(p, length));
    if ts != {} {
      TasksInInterval(p, calls, source, tasks, peers, ts, from, to);
    }
  }

  lemma Weighed(n: real, small: real, large: real)
    requires n >= 0.0 && 0.0 <= small <= large
    ensures 0.0 <= n * small <= n * large
  {
    Scales(n, small);
    ScalesUp(n, small, large);
  }

  lemma BoundGrows(p: Params, short: real, long: real)
    requires Plausible(p) && 0.0 <= short <= long
    ensures 0.0 <= PeerBound(p, short) <= PeerBound(p, long)
  {
    Scales(short, p.rate);
    Scales(long - short, p.rate);
    assert long * p.rate == short * p.rate + (long - short) * p.rate;
  }

  /** With so many peers behind the limiter, and each addition made within `delay` seconds of its packet's arrival, the
      additions in any closed span of twice the window number at most twice the peers' bounds for that span. */
  lemma CapacityFromRate(
      c: Config, start: i64, steps: seq<Step>, p: Params, calls: seq<Call>, source: seq<nat>, times: seq<real>,
      delay: real, offset: real, peers: set<IpAddr>, capacity: nat)
    requires Inverting(c.crypto) && Run(c, start, steps).Some?
    requires Plausible(p) && (Patient(p) || p.burst < 1.0) && Timely(calls) && delay >= 0.0
    requires Admitted(p, calls, source, Run(c, start, steps).value.tasks) && FromPeers(calls, peers)
    requires Punctual(calls, source, Run(c, start, steps).value.adds, times, delay, offset)
    requires 2.0 * (|peers| as real * PeerBound(p, (2 * c.window + 1) as real + delay)) < (capacity + 1) as real
    ensures WithinCapacity(c.window, capacity, Run(c, start, steps).value.adds)
  {
    hide Run, Admitted, Punctual, FromPeers, Timely, Patient, PeerBound, Plausible;
    RunKeepsInv(c, start, steps);
    RunKeepsOwners(c, start, steps);
    var s := Run(c, start, steps).value;
    hide OwnersInv, TasksInv, ExecsInv;
    forall i, j | 0 <= i <= j < |s.adds| && s.adds[j].at - s.adds[i].at <= 2 * c.window
      ensures j - i + 1 <= capacity
    {
      StretchHasOwners(s, i, j + 1);
      OwnersInSpan(c, s, p, calls, source, times, delay, offset, peers, i, j, true);
      OwnersInSpan(c, s, p, calls, source, times, delay, offset, peers, i, j, false);
      hide Owners;
      var bound := |peers| as real * PeerBound(p, (2 * c.window + 1) as real + delay);
      assert (j - i + 1) as real <= bound + bound;
    }
  }

  /** Then no pair is executed twice but an ancient one: at-most-once without a hypothesis on the additions. */
  lemma PromptServerRunsOnce(
      c: Config, start: i64, steps: seq<Step>, p: Params, calls: seq<Call>, source: seq<nat>, times: seq<real>,
      delay: real, offset: real, peers: set<IpAddr>)
    requires Inverting(c.crypto) && Run(c, start, steps).Some?
    requires Plausible(p) && (Patient(p) || p.burst < 1.0) && Timely(calls) && delay >= 0.0
    requires Admitted(p, calls, source, Run(c, start, steps).value.tasks) && FromPeers(calls, peers)
    requires Punctual(calls, source, Run(c, start, steps).value.adds, times, delay, offset)
    requires 2.0 * (|peers| as real * PeerBound(p, (2 * c.window + 1) as real + delay)) < (c.maxSize + 2) as real
    ensures var s := Run(c, start, steps).value;
            forall j, k :: 0 <= j < k < |s.execs| && s.execs[j].key == s.execs[k].key ==> Ancient(s.execs[k].key.ts)
  {
    hide Run, Admitted, Punctual, FromPeers, Timely, Patient, PeerBound, Plausible;
    CapacityFromRate(c, start, steps, p, calls, source, times, delay, offset, peers, c.maxSize + 1);
    AtMostOnce(c, start, steps);
  }

  /** With the defaults, a window of 30 seconds, 1024 remembered pairs, ten packets at once and five a second: one peer
      and tasks that take at most 39 seconds. */
  lemma DefaultServerRunsOnce(
      c: Config, start: i64, steps: seq<Step>, calls: seq<Call>, source: seq<nat>, times: seq<real>, delay: real,
      offset: real, peer: IpAddr)
    requires c.window == 30 && c.maxSize == 1024 && 0.0 <= delay <= 39.0
    requires Inverting(c.crypto) && Run(c, start, steps).Some? && Timely(calls) && FromPeers(calls, {peer})
    requires Admitted(Params(10.0, 5.0, 60), calls, source, Run(c, start, steps).value.tasks)
    requires Punctual(calls, source, Run(c, start, steps).value.adds, times, delay, offset)
    ensures var s := Run(c, start, steps).value;
            forall j, k :: 0 <= j < k < |s.execs| && s.execs[j].key == s.execs[k].key ==> Ancient(s.execs[k].key.ts)
  {
    var p := Params(10.0, 5.0, 60);
    assert Plausible(p) && Patient(p) && |{peer}| == 1;
    assert 2.0 * (1.0 * PeerBound(p, 61.0 + delay)) < 1026.0;
    hide Run, Admitted, Punctual, FromPeers, Timely, Patient, PeerBound, Plausible;
    PromptServerRunsOnce(c, start, steps, p, calls, source, times, delay, offset, {peer});
  }
}
