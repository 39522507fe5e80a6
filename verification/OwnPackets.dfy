/** Exactly when neither side takes a packet of its own: the capacities for which it never does, with runs in which it
    does for all greater ones. */
module OwnPackets {
  import opened Wrappers
  import opened Ints
  import opened Packet
  import opened Replay
  import opened Server
  import opened Capacity
  import Client

  // ---- The server and its responses ----

  /** No packet the server had put on the network is executed. */
  ghost predicate NoEcho(s: State) {
    forall k :: 0 <= k < |s.execs| && s.execs[k].task < |s.tasks| ==> !s.tasks[s.execs[k].task].echoed
  }

  ghost predicate NoEchoWithin(c: Config, capacity: nat, s: State) {
    WithinCapacity(c.window, capacity, s.adds) ==> NoEcho(s)
  }

  ghost predicate NeverSelf(c: Config, capacity: nat) {
    forall start: i64, steps | Run(c, start, steps).Some? :: NoEchoWithin(c, capacity, Run(c, start, steps).value)
  }

  lemma SelfWithin(c: Config, start: i64, steps: seq<Step>, capacity: nat)
    requires Inverting(c.crypto) && Run(c, start, steps).Some? && capacity <= c.maxSize + 1
    ensures NoEchoWithin(c, capacity, Run(c, start, steps).value)
  {
    hide Run;
    var s := Run(c, start, steps).value;
    forall k | 0 <= k < |s.execs| && s.execs[k].task < |s.tasks| && s.tasks[s.execs[k].task].echoed
      ensures !WithinCapacity(c.window, capacity, s.adds)
    {
      var _ := SelfExecutionNeedsEviction(c, start, steps, k);
    }
  }

  /** A payload sealed at a time under a nonce. */
  ghost function Packed(c: Config, salt: Bytes, nonce: Bytes, ts: i64, payload: Bytes): Bytes
    requires c.crypto.derive(salt).Some?
  {
    Frame(c.crypto, salt, nonce, ts, payload).value
  }

  lemma PackedOpens(c: Config, salt: Bytes, nonce: Bytes, ts: i64, payload: Bytes)
    requires Inverting(c.crypto) && c.crypto.derive(salt).Some? && |salt| == SALT_LEN && |nonce| == NONCE_LEN
    requires |payload| <= MAX_PT_SIZE
    ensures var pkt := Packed(c, salt, nonce, ts, payload);
            && Received(pkt) == pkt && |pkt| >= MIN_LEN && KeyOf(c.crypto, pkt) == Some(Entry(ts, nonce))
            && DecryptPacket(c.crypto, pkt) == Success(Opened(payload, nonce, ts))
  {
    FramingRoundTrip(c.crypto, salt, nonce, ts, payload);
  }

  const NONCE: Bytes := seq(NONCE_LEN, _ => 0)

  /** The first packet of a run, admitted. */
  lemma FirstAdmitted(c: Config, start: i64, pkt: Bytes, e: Entry) returns (steps: seq<Step>, s: State)
    requires ClockRange(start) && Received(pkt) == pkt && KeyOf(c.crypto, pkt) == Some(e)
    requires Near(c.window, start, e.ts)
    ensures Run(c, start, steps) == Some(s) && s.now == start && s.execs == [] && s.emitted == {}
    ensures |s.tasks| == 1 && AdmittedUnder(s.tasks[0], e) && |s.adds| == 1 && s.adds[0].at == start
    ensures s.tasks[0].pkt == pkt && s.tasks[0].phase.cmd == TrimHash(DecryptPacket(c.crypto, pkt).value.pt)
    ensures s.entries == Pushed([], c.maxSize, e) && s.posts == []
  {
    InitRecalls(c, start);
    FloodAdmits(c, Init(start), [], e);
    assert PushedAll([], c.maxSize, []) == [];
    hide Run, Accepts, Pruned, Pushed, PushedAll, Near, KeyOf, Received, Checked, Recalls, ClockRange;
    steps, s := RunOn(c, start, [], Init(start), Receive(pkt, false));
    CheckAdmits(c, s, 0, e);
    steps, s := RunOn(c, start, steps, s, Check(0));
  }

  /** The server's first task runs its command, and after a while seals the output. */
  lemma FirstSealed(c: Config, start: i64, steps: seq<Step>, s: State, salt: Bytes, output: Bytes, wait: nat)
    returns (longer: seq<Step>, next: State)
    requires Inverting(c.crypto) && c.crypto.derive(salt).Some? && |salt| == SALT_LEN && |output| <= MAX_PT_SIZE
    requires Run(c, start, steps) == Some(s) && |s.tasks| == 1 && s.tasks[0].phase.Accepted? && s.execs == []
    requires ClockRange(s.now + wait)
    ensures var now := s.now + wait;
            && Run(c, start, longer) == Some(next) && next.now == now && |next.tasks| == 1
            && next.tasks[0] == s.tasks[0].(phase := Sealed(Packed(c, salt, NONCE, now, output), Entry(now, NONCE)))
            && |next.execs| == 1 && next.execs[0].task == 0 && next.execs[0].output == Some(output)
            && next.execs[0].cmd == s.tasks[0].phase.cmd
            && next.adds == s.adds && next.entries == s.entries && next.posts == s.posts
  {
    hide Run, DecryptPacket, KeyOf, ClockRange;
    assert CommandOutput(output, []) == output && output + [] == output;
    assert ResponsePadding(|output|, 0) == 0 && Hashes(0) == [];
    longer, next := RunOn(c, start, steps, s, Execute(0, Some((output, []))));
    longer, next := RunOn(c, start, longer, next, Tick(wait));
    hide Frame, CommandOutput, ResponsePadding;
    longer, next := RunOn(c, start, longer, next, Seal(0, 0, salt, NONCE));
  }

  /** Its pair is recorded, and its response sent. */
  lemma FirstSent(c: Config, start: i64, steps: seq<Step>, s: State, out: Bytes, key: Entry)
    returns (longer: seq<Step>, next: State)
    requires Run(c, start, steps) == Some(s) && |s.tasks| == 1 && s.tasks[0].phase == Sealed(out, key)
    ensures Run(c, start, longer) == Some(next) && next.now == s.now && next.execs == s.execs && |next.tasks| == 1
    ensures next.entries == Pushed(s.entries, c.maxSize, key) && out in next.emitted
    ensures |next.adds| == |s.adds| + 1 && next.adds[..|s.adds|] == s.adds && next.adds[|s.adds|].at == s.now
    ensures next.posts == s.posts + [Post(out, 0)] && next.tasks[0].pkt == s.tasks[0].pkt
  {
    hide Run, Pushed;
    longer, next := RunOn(c, start, steps, s, Register(0));
    longer, next := RunOn(c, start, longer, next, Send(0));
  }

  /** An addition more than twice the window ago is forgotten at the next check. */
  lemma OnlyOwnRecalled(c: Config, now: i64, past: Entry, own: Entry)
    requires ClockRange(now) && 0 <= past.ts && past.ts + c.window < now && own.ts == now
    ensures Retain(Pushed(Pushed([], c.maxSize, past), c.maxSize, own), c.window, now)
         == PushedAll([], c.maxSize, [own])
  {
    LiveExact(c.window, now, past);
    LiveExact(c.window, now, own);
    assert PushedAll([], c.maxSize, [own]) == Pushed([], c.maxSize, own) by {
      assert [own][..0] == [];
    }
    assert [past, own][1..] == [own];
    assert Retain([own], c.window, now) == [own];
    assert Retain([past, own], c.window, now) == [own];
    assert Pushed([], c.maxSize, past) == if c.maxSize == 0 then [] else [past];
    if c.maxSize >= 2 {
      assert Pushed([past], c.maxSize, own) == [past, own];
    } else if c.maxSize == 1 {
      assert ([past] + [own])[1..] == [own];
    }
  }

  /** The server has put `out` on the network, and recalls only its pair. */
  lemma SelfSent(c: Config, salt: Bytes) returns (steps: seq<Step>, s: State)
    requires Inverting(c.crypto) && c.crypto.derive(salt).Some? && |salt| == SALT_LEN
    ensures var now: i64 := 2 * c.window + 1;
            var out, own := Packed(c, salt, NONCE, now, []), Entry(now, NONCE);
            && Run(c, 0, steps) == Some(s) && s.now == now && Recalls(c, s, [own]) && out in s.emitted
            && |s.tasks| == 1 && |s.execs| == 1 && |s.adds| == 2 && s.adds[0].at == 0 && s.adds[1].at == now
  {
    var now: i64 := 2 * c.window + 1;
    var past, own := Entry(0, NthNonce(1)), Entry(now, NONCE);
    PackedOpens(c, salt, NthNonce(1), 0, []);
    OnlyOwnRecalled(c, now, past, own);
    hide Run, Frame, Pushed, PushedAll, Retain, KeyOf, Received, NthNonce;
    steps, s := FirstAdmitted(c, 0, Packed(c, salt, NthNonce(1), 0, []), past);
    steps, s := FirstSealed(c, 0, steps, s, salt, [], now);
    steps, s := FirstSent(c, 0, steps, s, Packed(c, salt, NONCE, now, []), own);
  }

  lemma UnknownAfter(maxSize: u32, own: Entry, keys: seq<Entry>)
    requires |keys| == maxSize && own !in keys && forall i, j :: 0 <= i < j < |keys| ==> keys[i] != keys[j]
    ensures EachUnknown(maxSize, [own], keys) && own !in Newest(maxSize, [own] + keys)
  {
    assert Newest(maxSize, [own] + keys) == keys;
    forall i | 0 <= i < |keys|
      ensures keys[i] !in Newest(maxSize, [own] + keys[..i])
    {
    }
  }

  /** A run in which the server executes a packet it sent itself: `maxSize` packets came in between, and no span of
      twice the window holds more than `maxSize + 2` additions. */
  lemma SelfRuns(c: Config, salt: Bytes) returns (steps: seq<Step>)
    requires Inverting(c.crypto) && c.crypto.derive(salt).Some? && |salt| == SALT_LEN
    ensures Run(c, 0, steps).Some?
    ensures var s := Run(c, 0, steps).value; WithinCapacity(c.window, c.maxSize + 2, s.adds) && !NoEcho(s)
  {
    var now: i64 := 2 * c.window + 1;
    var out, own := Packed(c, salt, NONCE, now, []), Entry(now, NONCE);
    var sent, flooded, s;
    PackedOpens(c, salt, NONCE, now, []);
    steps, sent := SelfSent(c, salt);
    var others, keys := Others(c, out, c.maxSize);
    UnknownAfter(c.maxSize, own, keys);
    hide Run, Frame, EachUnknown, KeyOf, Received, Recalls, Newest, Keyed;
    steps, flooded := FloodAll(c, 0, steps, sent, [own], others, keys);
    steps, s := FloodOne(c, 0, steps, flooded, [own] + keys, out, own, true);
    var t := |flooded.tasks|;
    assert AdmittedUnder(s.tasks[t + 0], [own][0]);
    SpansFit(c, sent, flooded, s, keys, own);
    steps, s := ExecuteEcho(c, 0, steps, s, t);
  }

  lemma SpansFit(c: Config, sent: State, flooded: State, s: State, keys: seq<Entry>, own: Entry)
    requires |sent.adds| == 2 && sent.adds[0].at == 0 && sent.adds[1].at == sent.now == 2 * c.window + 1
    requires Floods(sent, flooded, keys) && |keys| == c.maxSize && Floods(flooded, s, [own])
    ensures WithinCapacity(c.window, c.maxSize + 2, s.adds)
  {
    hide AdmittedUnder;
    assert forall i :: 0 < i < |s.adds| ==> s.adds[i].at == 2 * c.window + 1;
    assert s.adds[0].at == 0;
  }

  lemma ExecuteEcho(c: Config, start: i64, steps: seq<Step>, s: State, t: nat)
    returns (longer: seq<Step>, next: State)
    requires Run(c, start, steps) == Some(s) && t < |s.tasks| && s.tasks[t].phase.Accepted? && s.tasks[t].echoed
    ensures Run(c, start, longer) == Some(next) && next.adds == s.adds && !NoEcho(next)
  {
    hide Run;
    longer, next := RunOn(c, start, steps, s, Execute(t, None));
    assert next.execs[|s.execs|].task == t;
  }

  /** The server executes no packet of its own, in every run whose additions stay within the capacity, if and only if
      the capacity is at most `maxSize + 1`. */
  lemma NeverSelfExactly(c: Config, salt: Bytes, capacity: nat)
    requires Inverting(c.crypto) && c.crypto.derive(salt).Some? && |salt| == SALT_LEN
    ensures NeverSelf(c, capacity) <==> capacity <= c.maxSize + 1
  {
    hide NoEcho;
    if capacity <= c.maxSize + 1 {
      forall start: i64, steps | Run(c, start, steps).Some?
        ensures NoEchoWithin(c, capacity, Run(c, start, steps).value)
      {
        SelfWithin(c, start, steps, capacity);
      }
    } else {
      var steps := SelfRuns(c, salt);
      assert !NoEchoWithin(c, capacity, Run(c, 0, steps).value);
    }
  }

  // ---- The client and its requests ----

  ghost predicate TakesNoRequest(p: Client.Progress) {
    p.stage.Done? ==> p.stage.reply !in p.sent
  }

  ghost predicate NoRequestWithin(job: Client.Job, capacity: nat, p: Client.Progress) {
    WithinCapacity(job.window, capacity, p.adds) ==> TakesNoRequest(p)
  }

  ghost predicate NeverOwnRequest(job: Client.Job, capacity: nat) {
    forall start: i64, moves | Client.Play(job, start, moves).Some? ::
      NoRequestWithin(job, capacity, Client.Play(job, start, moves).value)
  }

  const FULL: nat := Client.DEFAULT_REPLAY_MAX

  /** A script that fits, and enough retries for the queue to forget the first request. */
  ghost predicate CanForget(job: Client.Job) {
    job.maxRetries >= FULL && |job.script| <= MAX_PT_SIZE
  }

  lemma RequestWithin(job: Client.Job, start: i64, moves: seq<Client.Move>, capacity: nat)
    requires Inverting(job.crypto) && Client.Play(job, start, moves).Some?
    requires capacity <= FULL + 1 || !CanForget(job)
    ensures NoRequestWithin(job, capacity, Client.Play(job, start, moves).value)
  {
    hide Client.Play;
    var p := Client.Play(job, start, moves).value;
    if p.stage.Done? && WithinCapacity(job.window, capacity, p.adds) {
      if |job.script| > MAX_PT_SIZE {
        LongRequestsAreLost(job, start, moves);
      } else {
        Client.NeverAcceptsOwnRequest(job, start, moves);
      }
    }
  }

  /** A reply is at most as long as the receive buffer, so it is no request that is longer. */
  lemma LongRequestsAreLost(job: Client.Job, start: i64, moves: seq<Client.Move>)
    requires Inverting(job.crypto) && Client.Play(job, start, moves).Some? && |job.script| > MAX_PT_SIZE
    requires Client.Play(job, start, moves).value.stage.Done?
    ensures var p := Client.Play(job, start, moves).value; p.stage.reply !in p.sent
  {
    hide Client.Play;
    Client.PlaySound(job, start, moves);
    var p := Client.Play(job, start, moves).value;
    assert forall i :: 0 <= i < |p.sent| ==> Client.HoldsScript(job, p.sent[i]);
  }

  function NthNonce(i: nat): (n: Bytes)
    ensures |n| == NONCE_LEN
  {
    BigEndian(i, NONCE_LEN)
  }

  lemma NoncesDiffer(i: nat, j: nat)
    requires i < j < 0x1_0000_0000
    ensures NthNonce(i) != NthNonce(j)
  {
    Pow256Values();
    Pow256Grows(8, NONCE_LEN);
    BigEndianInverse(i, NONCE_LEN);
    BigEndianInverse(j, NONCE_LEN);
  }

  /** The pairs of the first requests, all sent at time 0. */
  function NthKeys(n: nat): (keys: seq<Entry>)
    ensures |keys| == n && forall i :: 0 <= i < n ==> keys[i] == Entry(0, NthNonce(i))
  {
    seq(n, i requires 0 <= i < n => Entry(0, NthNonce(i)))
  }

  lemma NextKeys(n: nat)
    ensures NthKeys(n + 1) == NthKeys(n) + [Entry(0, NthNonce(n))]
  {
  }

  ghost function FirstRequest(job: Client.Job, salt: Bytes): Bytes
    requires job.crypto.derive(salt).Some?
  {
    Frame(job.crypto, salt, NthNonce(0), 0, Client.PaddedScript(job, 0)).value
  }

  /** The client has sent and recorded `n` requests at time 0, and is about to go on. */
  ghost predicate HasSent(job: Client.Job, salt: Bytes, p: Client.Progress, n: nat)
    requires job.crypto.derive(salt).Some?
  {
    && p.now == 0 && p.entries == PushedAll([], Client.DEFAULT_REPLAY_MAX, NthKeys(n))
    && |p.sent| == n && |p.adds| == n && (n > 0 ==> p.sent[0] == FirstRequest(job, salt))
  }

  lemma PlayOn(job: Client.Job, moves: seq<Client.Move>, p: Client.Progress, m: Client.Move)
    returns (longer: seq<Client.Move>, next: Client.Progress)
    requires Client.Play(job, 0, moves) == Some(p) && Client.Possible(job, p, m)
    ensures longer == moves + [m] && next == Client.Advance(job, p, m) && Client.Play(job, 0, longer) == Some(next)
  {
    longer, next := moves + [m], Client.Advance(job, p, m);
    Client.Extend(job, 0, moves, p, m);
  }

  /** One more request, sent and recorded. */
  lemma SendsOne(job: Client.Job, salt: Bytes, moves: seq<Client.Move>, p: Client.Progress, n: nat)
    returns (longer: seq<Client.Move>, next: Client.Progress)
    requires job.crypto.derive(salt).Some? && |salt| == SALT_LEN
    requires Client.Play(job, 0, moves) == Some(p) && p.stage == Client.Ready && HasSent(job, salt, p, n)
    ensures Client.Play(job, 0, longer) == Some(next) && next.stage == Client.Waiting && HasSent(job, salt, next, n + 1)
    ensures next.retries == p.retries
  {
    NextKeys(n);
    assert NthKeys(n + 1)[..n] == NthKeys(n);
    hide Client.Play, NthKeys, NthNonce, Pushed, Client.PaddedScript;
    longer, next := PlayOn(job, moves, p, Client.Transmit(0, salt, NthNonce(n), true));
    longer, next := PlayOn(job, longer, next, Client.Record);
  }

  /** Requests that all time out. */
  lemma {:induction false} SendsMany(job: Client.Job, salt: Bytes, n: nat)
    returns (moves: seq<Client.Move>, p: Client.Progress)
    requires job.crypto.derive(salt).Some? && |salt| == SALT_LEN && n <= job.maxRetries
    ensures Client.Play(job, 0, moves) == Some(p) && p.stage == Client.Ready && HasSent(job, salt, p, n)
    ensures p.retries == n
  {
    if n == 0 {
      moves, p := [], Client.Begin(0);
      assert NthKeys(0) == [];
    } else {
      moves, p := SendsMany(job, salt, n - 1);
      moves, p := SendsOne(job, salt, moves, p, n - 1);
      hide Client.Play;
      moves, p := PlayOn(job, moves, p, Client.Timeout);
    }
  }

  lemma FirstIsForgotten(window: u32)
    ensures var keys := NthKeys(FULL + 1);
            Accepts(PushedAll([], Client.DEFAULT_REPLAY_MAX, keys), window, 0, Entry(0, NthNonce(0)))
  {
    var keys, e := NthKeys(FULL + 1), Entry(0, NthNonce(0));
    forall i | 0 < i <= FULL
      ensures keys[i] != e
    {
      NoncesDiffer(0, i);
    }
    EvictionBoundIsExact(window, Client.DEFAULT_REPLAY_MAX, 0, keys, e);
  }

  lemma FirstRequestOpens(job: Client.Job, salt: Bytes)
    requires Inverting(job.crypto) && job.crypto.derive(salt).Some? && |salt| == SALT_LEN
    requires |job.script| <= MAX_PT_SIZE
    ensures var pkt := FirstRequest(job, salt);
            && Received(pkt) == pkt && |pkt| >= MIN_LEN
            && KeyOf(job.crypto, pkt) == Some(Entry(0, NthNonce(0)))
  {
    hide NthNonce;
    FramingRoundTrip(job.crypto, salt, NthNonce(0), 0, Client.PaddedScript(job, 0));
    CommandPacketFits(job.crypto, job.script, 0, salt, NthNonce(0), 0);
  }

  /** What a waiting client makes of a packet that opens and that its window admits. */
  lemma TakesPacket(job: Client.Job, p: Client.Progress, pkt: Bytes, e: Entry)
    requires |pkt| >= MIN_LEN && KeyOf(job.crypto, pkt) == Some(e) && Accepts(p.entries, job.window, p.now, e)
    ensures var next := Client.Validated(job, p, pkt);
            next.stage.Done? && next.stage.reply == pkt && next.sent == p.sent && |next.adds| == |p.adds| + 1
  {
    hide Accepts, Pruned, Pushed, TrimHash;
  }

  /** A run in which the client takes its first request for the reply, with `FULL + 2` additions in all. */
  lemma TakesFirstRequest(job: Client.Job, salt: Bytes) returns (moves: seq<Client.Move>)
    requires Inverting(job.crypto) && job.crypto.derive(salt).Some? && |salt| == SALT_LEN && CanForget(job)
    ensures Client.Play(job, 0, moves).Some?
    ensures var p := Client.Play(job, 0, moves).value; |p.adds| == FULL + 2 && !TakesNoRequest(p)
  {
    hide Client.Play, NthNonce, Client.PaddedScript, Accepts, PushedAll, Received, KeyOf, Client.Validated, Frame;
    var p, pkt := Client.Begin(0), FirstRequest(job, salt);
    FirstRequestOpens(job, salt);
    FirstIsForgotten(job.window);
    moves, p := SendsMany(job, salt, FULL);
    moves, p := SendsOne(job, salt, moves, p, FULL);
    TakesPacket(job, p, pkt, Entry(0, NthNonce(0)));
    assert p.sent[0] == pkt;
    moves, p := PlayOn(job, moves, p, Client.Reply(pkt));
  }

  /** The client takes no request of its own for the reply, in every run whose additions stay within the capacity, if
      and only if the capacity is at most one more than the queue holds, or the retries do not fill the queue, or the
      script does not fit a packet. */
  lemma NeverOwnRequestExactly(job: Client.Job, salt: Bytes, capacity: nat)
    requires Inverting(job.crypto) && job.crypto.derive(salt).Some? && |salt| == SALT_LEN
    ensures NeverOwnRequest(job, capacity)
       <==> capacity <= FULL + 1 || job.maxRetries < FULL || |job.script| > MAX_PT_SIZE
  {
    hide TakesNoRequest, Client.Play;
    if capacity <= FULL + 1 || !CanForget(job) {
      forall start: i64, moves | Client.Play(job, start, moves).Some?
        ensures NoRequestWithin(job, capacity, Client.Play(job, start, moves).value)
      {
        RequestWithin(job, start, moves, capacity);
      }
    } else {
      var moves := TakesFirstRequest(job, salt);
      assert !NoRequestWithin(job, capacity, Client.Play(job, 0, moves).value);
    }
  }
}
