/** Exactly when the server executes a packet at most once: the capacity and the timestamps for which it does, with
    runs that execute a packet twice for all others. */
module Capacity {
  import opened Wrappers
  import opened Ints
  import opened Packet
  import opened Replay
  import opened Server

  ghost predicate ExecutedOnce(s: State, key: Entry) {
    forall j, k :: 0 <= j < k < |s.execs| ==> s.execs[j].key != key || s.execs[k].key != key
  }

  /** Every run whose additions stay within the capacity executes the pair at most once. */
  ghost predicate AlwaysOnce(c: Config, key: Entry, capacity: nat) {
    forall start: i64, steps | Run(c, start, steps).Some? :: OnceWithin(c, key, capacity, Run(c, start, steps).value)
  }

  ghost predicate OnceWithin(c: Config, key: Entry, capacity: nat, s: State) {
    WithinCapacity(c.window, capacity, s.adds) ==> ExecutedOnce(s, key)
  }

  /** Some clock finds the timestamp timely. */
  predicate Reachable(window: u32, ts: i64) {
    0 <= ts + window && ts < TWO_62 + window
  }

  // ---- Runs built step by step ----

  lemma RunOn(c: Config, start: i64, steps: seq<Step>, s: State, step: Step) returns (longer: seq<Step>, next: State)
    requires Run(c, start, steps) == Some(s) && Enabled(c, s, step)
    ensures longer == steps + [step] && next == Apply(c, s, step) && Run(c, start, longer) == Some(next)
  {
    longer, next := steps + [step], Apply(c, s, step);
    assert longer[..|longer| - 1] == steps;
  }

  /** What the queue still recalls at this instant is what is left of these timely pairs. */
  ghost predicate Recalls(c: Config, s: State, keys: seq<Entry>) {
    && ClockRange(s.now) && AllNear(c.window, s.now, keys)
    && Retain(s.entries, c.window, s.now) == PushedAll([], c.maxSize, keys)
  }

  /** `next` is `s` with more tasks, all admitted at once under these pairs, in this order. */
  ghost predicate Floods(s: State, next: State, keys: seq<Entry>) {
    && next.now == s.now && next.execs == s.execs && next.emitted == s.emitted
    && |next.tasks| == |s.tasks| + |keys| && |next.adds| == |s.adds| + |keys|
    && (forall i :: 0 <= i < |s.tasks| ==> next.tasks[i] == s.tasks[i])
    && (forall i :: 0 <= i < |s.adds| ==> next.adds[i] == s.adds[i])
    && (forall i :: |s.adds| <= i < |next.adds| ==> next.adds[i].at == s.now)
    && (forall i :: 0 <= i < |keys| ==> AdmittedUnder(next.tasks[|s.tasks| + i], keys[i]))
  }

  ghost predicate AdmittedUnder(task: Task, key: Entry) {
    task.phase.Accepted? && task.phase.key == key
  }

  ghost predicate AllNear(window: u32, now: i64, keys: seq<Entry>) {
    forall i :: 0 <= i < |keys| ==> Near(window, now, keys[i].ts)
  }

  /** The pairs still remembered. */
  function Newest(maxSize: u32, keys: seq<Entry>): seq<Entry> {
    if |keys| > maxSize then keys[|keys| - maxSize..] else keys
  }

  lemma {:induction false} RetainAll(window: u32, now: i64, keys: seq<Entry>)
    requires ClockRange(now) && AllNear(window, now, keys)
    ensures Retain(keys, window, now) == keys
  {
    if keys == [] {
    } else {
      assert Near(window, now, keys[0].ts);
      LiveExact(window, now, keys[0]);
      assert forall i :: 0 <= i < |keys| - 1 ==> keys[1..][i] == keys[i + 1];
      RetainAll(window, now, keys[1..]);
      assert keys == [keys[0]] + keys[1..];
    }
  }

  lemma RetainRecent(c: Config, now: i64, keys: seq<Entry>)
    requires ClockRange(now) && AllNear(c.window, now, keys)
    ensures Retain(PushedAll([], c.maxSize, keys), c.window, now) == PushedAll([], c.maxSize, keys)
  {
    hide Near;
    PushedAllKeepsLast(c.maxSize, keys);
    RetainAll(c.window, now, PushedAll([], c.maxSize, keys));
  }

  /** Among timely pairs the check admits one that is not remembered, and forgets none. */
  lemma FloodAdmits(c: Config, s: State, keys: seq<Entry>, e: Entry)
    requires Recalls(c, s, keys) && Near(c.window, s.now, e.ts) && e !in Newest(c.maxSize, keys)
    ensures Accepts(s.entries, c.window, s.now, e)
    ensures Pruned(s.entries, c.window, s.now, e.ts) == PushedAll([], c.maxSize, keys)
  {
    hide Near, Retain, PushedAll;
    PushedAllKeepsLast(c.maxSize, keys);
    WindowTestExact(c.window, s.now, e.ts);
    NearIsNotWrapped(c.window, s.now, e.ts);
  }

  lemma NearIsNotWrapped(window: u32, now: i64, ts: i64)
    requires Near(window, now, ts)
    ensures ts != now - TWO_63
  {
  }

  /** What a check leaves that admits its packet. */
  lemma CheckAdmits(c: Config, s: State, t: nat, e: Entry)
    requires t < |s.tasks| && KeyOf(c.crypto, s.tasks[t].pkt) == Some(e)
    requires Accepts(s.entries, c.window, s.now, e)
    ensures var next := Checked(c, s, t);
            && next.now == s.now && next.execs == s.execs && next.emitted == s.emitted
            && |next.adds| == |s.adds| + 1 && next.adds[..|s.adds|] == s.adds && next.adds[|s.adds|].at == s.now
            && next.entries == Pushed(Pruned(s.entries, c.window, s.now, e.ts), c.maxSize, e)
            && |next.tasks| == |s.tasks| && AdmittedUnder(next.tasks[t], e) && next.tasks[t].echoed == s.tasks[t].echoed
            && next.tasks[t].pkt == s.tasks[t].pkt && next.posts == s.posts
            && next.tasks[t].phase.cmd == TrimHash(DecryptPacket(c.crypto, s.tasks[t].pkt).value.pt)
            && forall i :: 0 <= i < |s.tasks| && i != t ==> next.tasks[i] == s.tasks[i]
  {
    hide Accepts, Pruned, Pushed, DecryptPacket, TrimHash;
  }

  lemma RecallsMore(c: Config, s: State, keys: seq<Entry>, e: Entry, next: State)
    requires Recalls(c, s, keys) && Near(c.window, s.now, e.ts) && next.now == s.now
    requires next.entries == Pushed(PushedAll([], c.maxSize, keys), c.maxSize, e)
    ensures Recalls(c, next, keys + [e])
  {
    hide Near, Retain, Pushed;
    assert (keys + [e])[..|keys|] == keys;
    RetainRecent(c, s.now, keys + [e]);
  }

  /** One more timely packet, received and checked. */
  lemma FloodOne(
      c: Config, start: i64, steps: seq<Step>, s: State, keys: seq<Entry>, pkt: Bytes, e: Entry, echoed: bool)
    returns (longer: seq<Step>, next: State)
    requires Run(c, start, steps) == Some(s) && Recalls(c, s, keys)
    requires Received(pkt) == pkt && KeyOf(c.crypto, pkt) == Some(e) && (echoed ==> pkt in s.emitted)
    requires Near(c.window, s.now, e.ts) && e !in Newest(c.maxSize, keys)
    ensures Run(c, start, longer) == Some(next) && Recalls(c, next, keys + [e]) && Floods(s, next, [e])
    ensures next.tasks[|s.tasks|].echoed == echoed
  {
    hide Run, Accepts, Pruned, Pushed, PushedAll, Near, Newest, KeyOf, Received, Checked, Recalls, ClockRange;
    FloodAdmits(c, s, keys, e);
    longer, next := RunOn(c, start, steps, s, Receive(pkt, echoed));
    CheckAdmits(c, next, |s.tasks|, e);
    longer, next := RunOn(c, start, longer, next, Check(|s.tasks|));
    RecallsMore(c, s, keys, e, next);
  }

  /** Packets that open, with their pairs. */
  ghost predicate Keyed(c: Config, pkts: seq<Bytes>, keys: seq<Entry>) {
    && |pkts| == |keys|
    && forall i :: 0 <= i < |pkts| ==> Received(pkts[i]) == pkts[i] && KeyOf(c.crypto, pkts[i]) == Some(keys[i])
  }

  /** After the pairs `known`, each pair is unknown when its turn comes. */
  ghost predicate EachUnknown(maxSize: u32, known: seq<Entry>, keys: seq<Entry>) {
    forall i :: 0 <= i < |keys| ==> keys[i] !in Newest(maxSize, known + keys[..i])
  }

  lemma FloodPrefix(c: Config, now: i64, known: seq<Entry>, pkts: seq<Bytes>, keys: seq<Entry>, n: nat)
    requires Keyed(c, pkts, keys) && AllNear(c.window, now, keys) && EachUnknown(c.maxSize, known, keys) && n <= |keys|
    ensures Keyed(c, pkts[..n], keys[..n]) && AllNear(c.window, now, keys[..n])
    ensures EachUnknown(c.maxSize, known, keys[..n])
  {
    hide Newest, Near, KeyOf, Received;
    assert forall i :: 0 <= i < n ==> keys[..n][i] == keys[i] && keys[..n][..i] == keys[..i] && pkts[..n][i] == pkts[i];
  }

  /** The last of the packets, and its pair. */
  lemma FloodLast(c: Config, now: i64, known: seq<Entry>, pkts: seq<Bytes>, keys: seq<Entry>, n: nat)
    requires Keyed(c, pkts, keys) && AllNear(c.window, now, keys) && EachUnknown(c.maxSize, known, keys)
    requires n + 1 == |keys|
    ensures Received(pkts[n]) == pkts[n] && KeyOf(c.crypto, pkts[n]) == Some(keys[n])
    ensures Near(c.window, now, keys[n].ts) && keys[n] !in Newest(c.maxSize, known + keys[..n])
  {
    hide Newest, Near, KeyOf, Received;
  }

  lemma FloodsTwice(s: State, mid: State, next: State, keys: seq<Entry>, more: seq<Entry>)
    requires Floods(s, mid, keys) && Floods(mid, next, more)
    ensures Floods(s, next, keys + more)
  {
    hide AdmittedUnder;
    forall i | 0 <= i < |keys + more|
      ensures AdmittedUnder(next.tasks[|s.tasks| + i], (keys + more)[i])
    {
      if i < |keys| {
        assert AdmittedUnder(mid.tasks[|s.tasks| + i], keys[i]);
      } else {
        assert AdmittedUnder(next.tasks[|mid.tasks| + (i - |keys|)], more[i - |keys|]);
      }
    }
  }

  /** Timely packets checked at one instant are all admitted, if each is unknown when its turn comes. */
  lemma {:induction false} FloodAll(
      c: Config, start: i64, steps: seq<Step>, s: State, known: seq<Entry>, pkts: seq<Bytes>, keys: seq<Entry>)
    returns (longer: seq<Step>, next: State)
    requires Run(c, start, steps) == Some(s) && Recalls(c, s, known) && |pkts| == |keys|
    requires Keyed(c, pkts, keys) && AllNear(c.window, s.now, keys) && EachUnknown(c.maxSize, known, keys)
    ensures Run(c, start, longer) == Some(next) && Recalls(c, next, known + keys) && Floods(s, next, keys)
    decreases |keys|
  {
    hide Run, Recalls, Floods, Newest, Near, AllNear, Keyed, EachUnknown, KeyOf, Received, ClockRange;
    if keys == [] {
      longer, next := steps, s;
      assert known + keys == known;
      FloodsNothing(s);
    } else {
      var n := |keys| - 1;
      var mid;
      FloodPrefix(c, s.now, known, pkts, keys, n);
      FloodLast(c, s.now, known, pkts, keys, n);
      longer, mid := FloodAll(c, start, steps, s, known, pkts[..n], keys[..n]);
      FloodsKeepsClock(s, mid, keys[..n]);
      longer, next := FloodOne(c, start, longer, mid, known + keys[..n], pkts[n], keys[n], false);
      FloodsTwice(s, mid, next, keys[..n], [keys[n]]);
      assert keys == keys[..n] + [keys[n]] && known + keys == known + keys[..n] + [keys[n]];
    }
  }

  lemma FloodsNothing(s: State)
    ensures Floods(s, s, [])
  {
  }

  lemma FloodsKeepsClock(s: State, next: State, keys: seq<Entry>)
    requires Floods(s, next, keys)
    ensures next.now == s.now && next.emitted == s.emitted
  {
  }

  /** Two admitted tasks with the same pair execute it twice. */
  lemma ExecuteBoth(c: Config, start: i64, steps: seq<Step>, s: State, i: nat, j: nat)
    returns (longer: seq<Step>, next: State)
    requires Run(c, start, steps) == Some(s) && s.execs == [] && i < j < |s.tasks|
    requires s.tasks[i].phase.Accepted? && s.tasks[j].phase.Accepted? && s.tasks[i].phase.key == s.tasks[j].phase.key
    ensures Run(c, start, longer) == Some(next) && next.adds == s.adds && next.now == s.now
    ensures !ExecutedOnce(next, s.tasks[i].phase.key)
  {
    hide Run;
    longer, next := RunOn(c, start, steps, s, Execute(i, None));
    longer, next := RunOn(c, start, longer, next, Execute(j, None));
    assert next.execs[0].key == next.execs[1].key == s.tasks[i].phase.key;
  }

  // ---- A packet made to be forgotten ----

  /** With `maxSize` other timely packets in between, a packet received twice is executed twice: `maxSize + 2`
      additions in all. */
  lemma FloodedPacketRunsTwice(c: Config, start: i64, pkt: Bytes, others: seq<Bytes>, keys: seq<Entry>)
    returns (steps: seq<Step>)
    requires ClockRange(start) && Received(pkt) == pkt && KeyOf(c.crypto, pkt).Some?
    requires Keyed(c, others, keys) && |keys| == c.maxSize && AllNear(c.window, start, keys)
    requires Near(c.window, start, KeyOf(c.crypto, pkt).value.ts) && KeyOf(c.crypto, pkt).value !in keys
    requires forall i, j :: 0 <= i < j < |keys| ==> keys[i] != keys[j]
    ensures Run(c, start, steps).Some?
    ensures var s := Run(c, start, steps).value;
            |s.adds| == c.maxSize + 2 && !ExecutedOnce(s, KeyOf(c.crypto, pkt).value)
  {
    var e := KeyOf(c.crypto, pkt).value;
    var all := [e] + keys + [e];
    UnknownAgain(c.maxSize, e, keys);
    TwiceKeyed(c, start, pkt, others, keys);
    InitRecalls(c, start);
    hide Run, EachUnknown, KeyOf, Near, Received, ExecutedOnce, PushedAll, Keyed, AllNear, Recalls, ClockRange;
    var s;
    steps, s := FloodAll(c, start, [], Init(start), [], [pkt] + others + [pkt], all);
    assert AdmittedUnder(s.tasks[0], all[0]) && AdmittedUnder(s.tasks[c.maxSize + 1], all[c.maxSize + 1]);
    assert all[0] == e && all[c.maxSize + 1] == e;
    steps, s := ExecuteBoth(c, start, steps, s, 0, c.maxSize + 1);
  }

  lemma InitRecalls(c: Config, start: i64)
    requires ClockRange(start)
    ensures Run(c, start, []) == Some(Init(start)) && Recalls(c, Init(start), [])
  {
  }

  lemma TwiceKeyed(c: Config, start: i64, pkt: Bytes, others: seq<Bytes>, keys: seq<Entry>)
    requires Received(pkt) == pkt && KeyOf(c.crypto, pkt).Some? && Keyed(c, others, keys)
    requires AllNear(c.window, start, keys) && Near(c.window, start, KeyOf(c.crypto, pkt).value.ts)
    ensures var all := [KeyOf(c.crypto, pkt).value] + keys + [KeyOf(c.crypto, pkt).value];
            Keyed(c, [pkt] + others + [pkt], all) && AllNear(c.window, start, all)
  {
    hide KeyOf, Near, Received;
  }

  lemma UnknownAgain(maxSize: u32, e: Entry, keys: seq<Entry>)
    requires |keys| == maxSize && e !in keys && forall i, j :: 0 <= i < j < |keys| ==> keys[i] != keys[j]
    ensures EachUnknown(maxSize, [], [e] + keys + [e])
  {
    var all := [e] + keys + [e];
    forall i | 0 <= i < |all|
      ensures all[i] !in Newest(maxSize, [] + all[..i])
    {
      assert [] + all[..i] == all[..i];
      if i == |all| - 1 {
        assert all[..i] == [e] + keys;
        assert Newest(maxSize, [e] + keys) == keys;
      } else {
        assert all[..i] == ([e] + keys)[..i];
      }
    }
  }

  /** The `i`-th of many nonces, none of which is `avoid`. */
  function OtherNonce(avoid: Bytes, i: nat): (n: Bytes)
    ensures |n| == NONCE_LEN
  {
    BigEndian(if i < FromBigEndian(avoid) then i else i + 1, NONCE_LEN)
  }

  lemma {:induction false} Pow256Grows(m: nat, n: nat)
    requires m <= n
    ensures Pow256(m) <= Pow256(n)
  {
    if m < n {
      Pow256Grows(m, n - 1);
    }
  }

  lemma OtherNoncesDiffer(avoid: Bytes, i: nat, j: nat)
    requires |avoid| == NONCE_LEN && i < j < 0x1_0000_0000
    ensures OtherNonce(avoid, i) != avoid && OtherNonce(avoid, i) != OtherNonce(avoid, j)
  {
    Pow256Values();
    Pow256Grows(8, NONCE_LEN);
    BigEndianInverse(if i < FromBigEndian(avoid) then i else i + 1, NONCE_LEN);
    BigEndianInverse(if j < FromBigEndian(avoid) then j else j + 1, NONCE_LEN);
  }

  /** An empty command under another nonce, with the salt and the timestamp of a packet that opens. */
  ghost function OtherPacket(c: Config, pkt: Bytes, i: nat): Bytes
    requires KeyOf(c.crypto, pkt).Some?
  {
    var key := KeyOf(c.crypto, pkt).value;
    match Frame(c.crypto, pkt[..SALT_LEN], OtherNonce(key.nonce, i), key.ts, [])
    case Success(other) => other
    case Failure(_) => []
  }

  lemma OtherPacketOpens(c: Config, pkt: Bytes, i: nat)
    requires Inverting(c.crypto) && KeyOf(c.crypto, pkt).Some?
    ensures var key, other := KeyOf(c.crypto, pkt).value, OtherPacket(c, pkt, i);
            Received(other) == other && KeyOf(c.crypto, other) == Some(Entry(key.ts, OtherNonce(key.nonce, i)))
  {
    var key := KeyOf(c.crypto, pkt).value;
    FramingRoundTrip(c.crypto, pkt[..SALT_LEN], OtherNonce(key.nonce, i), key.ts, []);
  }

  /** A clock at which the timestamp is timely. */
  function ClockFor(ts: i64): i64 {
    if ts < 0 then 0 else if ts < TWO_62 then ts else TWO_62 - 1
  }

  lemma ReachablePacketRunsTwice(c: Config, pkt: Bytes) returns (start: i64, steps: seq<Step>)
    requires Inverting(c.crypto) && Received(pkt) == pkt && KeyOf(c.crypto, pkt).Some?
    requires Reachable(c.window, KeyOf(c.crypto, pkt).value.ts)
    ensures Run(c, start, steps).Some?
    ensures var s := Run(c, start, steps).value;
            |s.adds| == c.maxSize + 2 && !ExecutedOnce(s, KeyOf(c.crypto, pkt).value)
  {
    var key := KeyOf(c.crypto, pkt).value;
    start := ClockFor(key.ts);
    var others, keys := Others(c, pkt, c.maxSize);
    steps := FloodedPacketRunsTwice(c, start, pkt, others, keys);
  }

  /** Any number of other packets that open, at the time of a packet that opens. */
  lemma Others(c: Config, pkt: Bytes, n: u32) returns (others: seq<Bytes>, keys: seq<Entry>)
    requires Inverting(c.crypto) && KeyOf(c.crypto, pkt).Some?
    ensures var key := KeyOf(c.crypto, pkt).value;
            && Keyed(c, others, keys) && |keys| == n && key !in keys
            && (forall i :: 0 <= i < |keys| ==> keys[i].ts == key.ts)
            && (forall i, j :: 0 <= i < j < |keys| ==> keys[i] != keys[j])
  {
    var key := KeyOf(c.crypto, pkt).value;
    others := seq(n as nat, i requires 0 <= i < n => OtherPacket(c, pkt, i));
    keys := seq(n as nat, i requires 0 <= i < n => Entry(key.ts, OtherNonce(key.nonce, i)));
    forall i | 0 <= i < n
      ensures Received(others[i]) == others[i] && KeyOf(c.crypto, others[i]) == Some(keys[i]) && keys[i] != key
    {
      OtherPacketOpens(c, pkt, i);
      OtherNoncesDiffer(key.nonce, i, 0xFFFF_FFFF);
    }
    forall i, j | 0 <= i < j < |keys|
      ensures keys[i] != keys[j]
    {
      OtherNoncesDiffer(key.nonce, i, j);
    }
  }

  // ---- The wrapped timestamp ----

  /** A packet stamped exactly 2^63 seconds before the clock and received twice is executed twice, with two additions
      in all, whatever the size of the queue. */
  lemma WrappedPacketRunsTwice(c: Config, start: i64, pkt: Bytes) returns (steps: seq<Step>)
    requires ClockRange(start) && Received(pkt) == pkt
    requires KeyOf(c.crypto, pkt).Some? && KeyOf(c.crypto, pkt).value.ts == start - TWO_63
    ensures Run(c, start, steps).Some?
    ensures var s := Run(c, start, steps).value;
            |s.adds| == 2 && s.now == start && !ExecutedOnce(s, KeyOf(c.crypto, pkt).value)
  {
    var e := KeyOf(c.crypto, pkt).value;
    WrappedTimestampIsForgotten(c.window, start, c.maxSize, e.nonce);
    assert Run(c, start, []) == Some(Init(start)) && Pruned([], c.window, start, e.ts) == [];
    hide DecryptPacket, Accepts, Pruned, Pushed, Run, TrimHash, ExecutedOnce;
    var s: State;
    steps, s := RunOn(c, start, [], Init(start), Receive(pkt, false));
    steps, s := RunOn(c, start, steps, s, Receive(pkt, false));
    steps, s := RunOn(c, start, steps, s, Check(0));
    steps, s := RunOn(c, start, steps, s, Check(1));
    steps, s := ExecuteBoth(c, start, steps, s, 0, 1);
  }

  // ---- The exact condition ----

  /** An executed pair was admitted by a clock that finds its timestamp timely or wrapped. */
  lemma ExecutedWhen(c: Config, start: i64, steps: seq<Step>, k: nat)
    requires Inverting(c.crypto) && Run(c, start, steps).Some? && k < |Run(c, start, steps).value.execs|
    ensures var s := Run(c, start, steps).value;
            var ts := s.execs[k].key.ts;
            && s.execs[k].index < |s.adds|
            && if Ancient(ts) then s.adds[s.execs[k].index].at == ts + TWO_63 else Reachable(c.window, ts)
  {
    hide Tracks, Run, Carries, OwnPair;
    RunKeepsInv(c, start, steps);
    var s := Run(c, start, steps).value;
    assert ExecOk(c, s.adds, s.tasks, s.execs[k]);
    assert Dated(c.window, s.adds[s.execs[k].index]);
  }

  lemma ExecutionsDifferInIndex(c: Config, start: i64, steps: seq<Step>, j: nat, k: nat)
    requires Inverting(c.crypto) && Run(c, start, steps).Some?
    requires j < k < |Run(c, start, steps).value.execs|
    ensures var s := Run(c, start, steps).value; s.execs[j].index != s.execs[k].index
  {
    hide WindowOk, TasksInv, Run, Carries, OwnPair;
    RunKeepsInv(c, start, steps);
    var s := Run(c, start, steps).value;
    assert ExecOk(c, s.adds, s.tasks, s.execs[j]) && ExecOk(c, s.adds, s.tasks, s.execs[k]);
  }

  /** The capacity up to which a pair with this timestamp is executed at most once. */
  ghost predicate Suffices(c: Config, ts: i64, capacity: nat) {
    capacity <= 1 || (!Ancient(ts) && (capacity <= c.maxSize + 1 || !Reachable(c.window, ts)))
  }

  lemma OnceWhenItSuffices(c: Config, key: Entry, capacity: nat, start: i64, steps: seq<Step>)
    requires Inverting(c.crypto) && Run(c, start, steps).Some?
    requires Suffices(c, key.ts, capacity) && WithinCapacity(c.window, capacity, Run(c, start, steps).value.adds)
    ensures ExecutedOnce(Run(c, start, steps).value, key)
  {
    hide Run;
    var s := Run(c, start, steps).value;
    forall j, k | 0 <= j < k < |s.execs| && s.execs[j].key == key && s.execs[k].key == key
      ensures false
    {
      ExecutedWhen(c, start, steps, j);
      ExecutedWhen(c, start, steps, k);
      ExecutionsDifferInIndex(c, start, steps, j, k);
      var ordered := s.execs[j].index <= s.execs[k].index;
      if !Ancient(key.ts) {
        ReexecutionNeedsEviction(c, start, steps, if ordered then j else k, if ordered then k else j);
      }
    }
  }

  lemma TwiceOtherwise(c: Config, pkt: Bytes, capacity: nat)
    requires Inverting(c.crypto) && Received(pkt) == pkt && KeyOf(c.crypto, pkt).Some?
    requires !Suffices(c, KeyOf(c.crypto, pkt).value.ts, capacity)
    ensures !AlwaysOnce(c, KeyOf(c.crypto, pkt).value, capacity)
  {
    hide Run, ExecutedOnce;
    var key := KeyOf(c.crypto, pkt).value;
    var start, steps;
    if Ancient(key.ts) {
      start := key.ts + TWO_63;
      steps := WrappedPacketRunsTwice(c, start, pkt);
    } else {
      start, steps := ReachablePacketRunsTwice(c, pkt);
    }
    assert !OnceWithin(c, key, capacity, Run(c, start, steps).value);
  }

  /** A packet that opens is executed at most once, in every run whose additions stay within the capacity, if and only
      if the capacity is at most one, or the timestamp is not ancient and either the capacity is at most
      `maxSize + 1` or no clock finds the timestamp timely. */
  lemma AtMostOnceExactly(c: Config, pkt: Bytes, capacity: nat)
    requires Inverting(c.crypto) && Received(pkt) == pkt && KeyOf(c.crypto, pkt).Some?
    ensures var key := KeyOf(c.crypto, pkt).value;
            AlwaysOnce(c, key, capacity) <==> Suffices(c, key.ts, capacity)
  {
    var key := KeyOf(c.crypto, pkt).value;
    if Suffices(c, key.ts, capacity) {
      forall start: i64, steps | Run(c, start, steps).Some?
        ensures OnceWithin(c, key, capacity, Run(c, start, steps).value)
      {
        if WithinCapacity(c.window, capacity, Run(c, start, steps).value.adds) {
          OnceWhenItSuffices(c, key, capacity, start, steps);
        }
      }
    } else {
      TwiceOtherwise(c, pkt, capacity);
    }
  }
}
