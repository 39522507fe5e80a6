/** The command client: one run of the retry loop, as a stepped protocol and as the loop itself. */
module Client {
  import opened Wrappers
  import opened Ints
  import opened Packet
  import opened Replay
  import opened Server

  const DEFAULT_REPLAY_MAX: u32 := 1024

  datatype Job = Job(window: u32, crypto: Crypto, script: Bytes, maxRetries: u16)

  /** Where a run stands. `Sent` is between `send_to` and `replay_add`; `Done` keeps the accepted reply. */
  datatype Stage =
    | Ready
    | Sent(key: Entry)
    | Waiting
    | Done(reply: Bytes, text: Bytes)
    | Failed

  /** `sent` records the packets put on the network and `adds` every `replay_add`. */
  datatype Progress = Progress(
    now: i64,
    entries: seq<Entry>,
    retries: nat,
    stage: Stage,
    sent: seq<Bytes>,
    adds: seq<Addition>)

  datatype Move =
    | Wait(seconds: nat)
    | Transmit(random: u8, salt: Bytes, nonce: Bytes, sendOk: bool)
    | Record
    | Abort
    | Timeout
    | Reply(raw: Bytes)

  function Begin(now: i64): Progress {
    Progress(now, [], 0, Ready, [], [])
  }

  predicate Possible(job: Job, p: Progress, m: Move) {
    match m
    case Wait(seconds) => ClockRange(p.now + seconds)
    case Transmit(_, salt, nonce, _) => p.stage.Ready? && |salt| == SALT_LEN && |nonce| == NONCE_LEN
    case Record => p.stage.Sent?
    case Abort => p.stage.Ready? || p.stage.Waiting?
    case Timeout => p.stage.Waiting?
    case Reply(_) => p.stage.Waiting?
  }

  function PaddedScript(job: Job, random: u8): Bytes {
    job.script + Hashes(CmdPadding(|job.script|, random))
  }

  /** `decrypt_and_validate_packet` on the client: here the window is consulted before the packet is opened. */
  function Validated(job: Job, p: Progress, pkt: Bytes): Progress {
    if |pkt| < MIN_LEN then p.(stage := Failed)
    else
      var stamp := pkt[SALT_LEN..SALT_LEN + TS_LEN];
      var key := Entry(StampToTime(stamp), pkt[SALT_LEN + TS_LEN..SALT_LEN + TS_LEN + NONCE_LEN]);
      var kept := Pruned(p.entries, job.window, p.now, key.ts);
      if !Accepts(p.entries, job.window, p.now, key) then p.(entries := kept, stage := Failed)
      else
        match DecryptPacket(job.crypto, pkt)
        case Failure(_) => p.(entries := kept, stage := Failed)
        case Success(o) =>
          p.(entries := Pushed(kept, DEFAULT_REPLAY_MAX, key),
             adds := p.adds + [Addition(key, p.now, true, |p.sent|)],
             stage := Done(pkt, TrimHash(o.pt)))
  }

  function Advance(job: Job, p: Progress, m: Move): Progress
    requires Possible(job, p, m)
  {
    match m
    case Wait(seconds) => p.(now := p.now + seconds)
    case Transmit(random, salt, nonce, sendOk) =>
      (match Frame(job.crypto, salt, nonce, p.now, PaddedScript(job, random))
       case Failure(_) => p.(stage := Failed)
       case Success(pkt) =>
         if sendOk then p.(stage := Sent(Entry(p.now, nonce)), sent := p.sent + [pkt]) else p.(stage := Failed))
    case Record =>
      p.(entries := Pushed(p.entries, DEFAULT_REPLAY_MAX, p.stage.key),
         adds := p.adds + [Addition(p.stage.key, p.now, false, |p.sent|)],
         stage := Waiting)
    case Abort => p.(stage := Failed)
    case Timeout =>
      if p.retries < job.maxRetries then p.(retries := p.retries + 1, stage := Ready) else p.(stage := Failed)
    case Reply(raw) => Validated(job, p, Received(raw))
  }

  function Play(job: Job, start: i64, moves: seq<Move>): Option<Progress> {
    if moves == [] then (if ClockRange(start) then Some(Begin(start)) else None)
    else
      match Play(job, start, moves[..|moves| - 1])
      case None => None
      case Some(p) =>
        var m := moves[|moves| - 1];
        if Possible(job, p, m) then Some(Advance(job, p, m)) else None
  }

  // ---- The invariant of every run ----

  /** The stage fixes how many packets are out and how many of them are recorded. */
  ghost predicate Counted(job: Job, p: Progress) {
    && p.retries <= job.maxRetries
    && match p.stage
       case Ready => |p.sent| == p.retries && |p.adds| == |p.sent|
       case Sent(_) => |p.sent| == p.retries + 1 && |p.adds| == p.retries
       case Waiting => |p.sent| == p.retries + 1 && |p.adds| == |p.sent|
       case Done(_, _) => |p.sent| == p.retries + 1 && |p.adds| == |p.sent| + 1
       case Failed => |p.sent| <= p.retries + 1 && |p.adds| <= |p.sent|
  }

  /** A packet that opens to this job's script, once its padding is removed. */
  ghost predicate IsRequest(job: Job, pkt: Bytes) {
    && DecryptPacket(job.crypto, pkt).Success?
    && TrimHash(DecryptPacket(job.crypto, pkt).value.pt) == TrimHash(job.script)
  }

  ghost predicate StampedByClock(job: Job, pkt: Bytes) {
    KeyOf(job.crypto, pkt).Some? && 0 <= KeyOf(job.crypto, pkt).value.ts
  }

  /** The packet is as long as its script makes it. */
  ghost predicate HoldsScript(job: Job, pkt: Bytes) {
    |pkt| >= |job.script| + MIN_LEN
  }

  /** The packets sent carry the script, under the pairs they are recorded with. */
  ghost predicate SentOk(job: Job, p: Progress)
    requires Counted(job, p)
  {
    && (forall i :: 0 <= i < |p.sent| ==>
          IsRequest(job, p.sent[i]) && StampedByClock(job, p.sent[i]) && HoldsScript(job, p.sent[i]))
    && (forall i :: 0 <= i < |p.sent| && i < |p.adds| ==> KeyOf(job.crypto, p.sent[i]) == Some(p.adds[i].entry))
    && (p.stage.Sent? ==>
          && KeyOf(job.crypto, p.sent[p.retries]) == Some(p.stage.key) && 0 <= p.stage.key.ts <= p.now)
    && (p.stage.Done? ==>
          && KeyOf(job.crypto, p.stage.reply) == Some(p.adds[|p.sent|].entry) && p.adds[|p.sent|].accepted
          && |p.stage.reply| <= MAX_CT_SIZE)
  }

  ghost predicate WindowOk(job: Job, p: Progress) {
    WindowInv(job.window, DEFAULT_REPLAY_MAX, p.now, p.entries, p.adds)
  }

  /** Where the reply's pair is that of a request, the window's capacity was exhausted in between. */
  ghost predicate ReplyFresh(job: Job, p: Progress)
    requires Counted(job, p) && p.stage.Done?
  {
    var n := |p.sent|;
    forall i :: 0 <= i < n && p.adds[i].entry == p.adds[n].entry ==>
      n - i - 1 >= DEFAULT_REPLAY_MAX && p.adds[n].at - p.adds[i].at <= 2 * job.window
  }

  ghost predicate Sound(job: Job, p: Progress) {
    Counted(job, p) && SentOk(job, p) && if p.stage.Done? then ReplyFresh(job, p) else WindowOk(job, p)
  }

  lemma TransmitSound(job: Job, p: Progress, m: Move)
    requires Inverting(job.crypto) && Sound(job, p) && Possible(job, p, m) && m.Transmit?
    ensures Sound(job, Advance(job, p, m))
  {
    var cmd := PaddedScript(job, m.random);
    if Frame(job.crypto, m.salt, m.nonce, p.now, cmd).Success? {
      FramingRoundTrip(job.crypto, m.salt, m.nonce, p.now, cmd);
      PaddingInverse(job.script, m.random);
    }
  }

  lemma RecordSound(job: Job, p: Progress)
    requires Sound(job, p) && p.stage.Sent?
    ensures Sound(job, Advance(job, p, Record))
  {
    WindowAdd(job.window, DEFAULT_REPLAY_MAX, p.now, p.entries, p.adds, p.stage.key, false, |p.sent|, p.entries);
  }

  lemma ReplySound(job: Job, p: Progress, raw: Bytes)
    requires Inverting(job.crypto) && Sound(job, p) && Possible(job, p, Reply(raw))
    ensures Sound(job, Advance(job, p, Reply(raw)))
  {
    var pkt := Received(raw);
    if |pkt| >= MIN_LEN {
      var key := Entry(StampToTime(pkt[SALT_LEN..SALT_LEN + TS_LEN]),
                       pkt[SALT_LEN + TS_LEN..SALT_LEN + TS_LEN + NONCE_LEN]);
      WindowPruned(job.window, DEFAULT_REPLAY_MAX, p.now, p.entries, p.adds, key.ts);
      if Accepts(p.entries, job.window, p.now, key) {
        forall i | 0 <= i < |p.sent| && p.adds[i].entry == key
          ensures |p.sent| - i - 1 >= DEFAULT_REPLAY_MAX && p.now - p.adds[i].at <= 2 * job.window
        {
          assert StampedByClock(job, p.sent[i]);
          AcceptedLate(job, p, key, i);
        }
      }
    }
  }

  /** A pair recorded before is accepted only once the capacity is exhausted. */
  lemma AcceptedLate(job: Job, p: Progress, key: Entry, i: nat)
    requires WindowOk(job, p) && i < |p.adds| && p.adds[i].entry == key && 0 <= key.ts
    requires Accepts(p.entries, job.window, p.now, key)
    ensures |p.adds| - i - 1 >= DEFAULT_REPLAY_MAX && p.now - p.adds[i].at <= 2 * job.window
  {
    WindowTestExact(job.window, p.now, key.ts);
    AcceptedAgainAfterEviction(job.window, DEFAULT_REPLAY_MAX, p.now, EntriesOf(p.adds), p.entries, key, i);
  }

  lemma {:induction false} PlaySound(job: Job, start: i64, moves: seq<Move>)
    requires Inverting(job.crypto) && Play(job, start, moves).Some?
    ensures Sound(job, Play(job, start, moves).value)
  {
    if moves == [] {
      WindowInitially(job.window, DEFAULT_REPLAY_MAX, start);
    } else {
      PlaySound(job, start, moves[..|moves| - 1]);
      var p := Play(job, start, moves[..|moves| - 1]).value;
      match moves[|moves| - 1]
      case Wait(seconds) =>
        if !p.stage.Done? {
          WindowLater(job.window, DEFAULT_REPLAY_MAX, p.now, p.now + seconds, p.entries, p.adds);
        }
      case Transmit(_, _, _, _) => TransmitSound(job, p, moves[|moves| - 1]);
      case Record => RecordSound(job, p);
      case Reply(raw) => ReplySound(job, p, raw);
      case _ =>
    }
  }

  /** A transmission fails where no key can be derived or the socket refuses; otherwise one packet more is out, which
      opens, under the nonce given and the time of the move, to the script and behind it '#' as often as the random
      byte says, as long as the whole stays under the payload limit. Nothing is recorded yet. */
  lemma TransmittedPadded(job: Job, p: Progress, random: u8, salt: Bytes, nonce: Bytes, sendOk: bool)
    requires Inverting(job.crypto) && Possible(job, p, Transmit(random, salt, nonce, sendOk))
    ensures var q := Advance(job, p, Transmit(random, salt, nonce, sendOk));
            && q == p.(stage := q.stage, sent := q.sent)
            && if job.crypto.derive(salt).None? || !sendOk then q.stage == Failed && q.sent == p.sent
               else
                 && q.stage == Sent(Entry(p.now, nonce)) && |q.sent| == |p.sent| + 1 && q.sent[..|p.sent|] == p.sent
                 && var out := q.sent[|p.sent|];
                    var r, len := DecryptPacket(job.crypto, out), |job.script|;
                 && out[..SALT_LEN] == salt && r.Success? && r.value.ts == p.now && r.value.nonce == nonce
                 && IsPadded(r.value.pt, job.script)
                 && |r.value.pt| == (if len >= MAX_PT_SIZE - 1 then len
                                     else if len + random < MAX_PT_SIZE then len + random else MAX_PT_SIZE - 1)
  {
    var cmd := PaddedScript(job, random);
    HashesPad(job.script, CmdPadding(|job.script|, random));
    if job.crypto.derive(salt).Some? {
      FramingRoundTrip(job.crypto, salt, nonce, p.now, cmd);
      PacketLayout(job.crypto, salt, nonce, p.now, cmd);
    }
  }

  // ---- Results over every run ----

  /** A run puts at most `maxRetries + 1` packets on the network, each carrying the script and stamped by the clock. */
  lemma RetryBound(job: Job, start: i64, moves: seq<Move>)
    requires Inverting(job.crypto) && Play(job, start, moves).Some?
    ensures var p := Play(job, start, moves).value;
            && |p.sent| <= job.maxRetries + 1
            && forall i :: 0 <= i < |p.sent| ==> IsRequest(job, p.sent[i]) && StampedByClock(job, p.sent[i])
  {
    PlaySound(job, start, moves);
  }

  /** The client never takes one of its own requests for the reply, as long as its retries fit the window's
      capacity or its additions stay within capacity. */
  lemma NeverAcceptsOwnRequest(job: Job, start: i64, moves: seq<Move>)
    requires Inverting(job.crypto) && Play(job, start, moves).Some?
    requires var p := Play(job, start, moves).value;
             p.stage.Done? && (job.maxRetries < DEFAULT_REPLAY_MAX
                                || WithinCapacity(job.window, DEFAULT_REPLAY_MAX + 1, p.adds))
    ensures var p := Play(job, start, moves).value;
            p.stage.reply !in p.sent
  {
    PlaySound(job, start, moves);
  }

  /** While the additions stay within capacity, a waiting client takes a datagram for the reply exactly when it opens,
      is timely, and has the pair of none of the packets sent; otherwise it fails. That is so for every packet but one
      stamped exactly 2^63 seconds before the clock. */
  lemma ReplyTakenExactly(job: Job, start: i64, moves: seq<Move>, raw: Bytes)
    requires Inverting(job.crypto) && Play(job, start, moves).Some?
    requires var p := Play(job, start, moves).value;
             p.stage.Waiting? && WithinCapacity(job.window, DEFAULT_REPLAY_MAX, p.adds)
    ensures var p := Play(job, start, moves).value;
            var q, key := Advance(job, p, Reply(raw)), KeyOf(job.crypto, Received(raw));
            && (q.stage.Done? || q.stage.Failed?) && (q.stage.Done? ==> q.stage.reply == Received(raw))
            && ((q.stage.Done? <==>
                  key.Some? && Near(job.window, p.now, key.value.ts)
                  && forall i :: 0 <= i < |p.sent| ==> KeyOf(job.crypto, p.sent[i]) != key)
                <==> !(key.Some? && key.value.ts == p.now - TWO_63))
  {
    PlaySound(job, start, moves);
    var p := Play(job, start, moves).value;
    TakenExactly(job, p, Received(raw));
  }

  lemma TakenExactly(job: Job, p: Progress, pkt: Bytes)
    requires Sound(job, p) && p.stage.Waiting? && WithinCapacity(job.window, DEFAULT_REPLAY_MAX, p.adds)
    ensures var q, key := Validated(job, p, pkt), KeyOf(job.crypto, pkt);
            (q.stage.Done? <==>
              key.Some? && Near(job.window, p.now, key.value.ts)
              && forall i :: 0 <= i < |p.sent| ==> KeyOf(job.crypto, p.sent[i]) != key)
            <==> !(key.Some? && key.value.ts == p.now - TWO_63)
  {
    hide Tracks, Chronicle, WithinCapacity, Accepts, Pruned, Pushed, StampToTime, IsRequest, StampedByClock,
         HoldsScript;
    match DecryptPacket(job.crypto, pkt)
    case Failure(_) =>
    case Success(o) =>
      QueueRefinesHistory(job.window, DEFAULT_REPLAY_MAX, p.now, p.adds, p.entries, Entry(o.ts, o.nonce));
  }

  /** What a run can still do: bounded by the retries left, and smaller after every move but the clock's. */
  ghost function Remaining(job: Job, p: Progress): int {
    4 * (job.maxRetries - p.retries) +
    match p.stage
    case Ready => 3
    case Sent(_) => 2
    case Waiting => 1
    case Done(_, _) => 0
    case Failed => 0
  }

  lemma RunEnds(job: Job, start: i64, moves: seq<Move>, m: Move)
    requires Inverting(job.crypto) && Play(job, start, moves).Some?
    requires Possible(job, Play(job, start, moves).value, m) && !m.Wait?
    ensures var p := Play(job, start, moves).value;
            0 <= Remaining(job, Advance(job, p, m)) < Remaining(job, p)
  {
    PlaySound(job, start, moves);
  }

  /** What a finished run shows is its reply's payload without padding. */
  lemma {:induction false} DoneShowsReply(job: Job, start: i64, moves: seq<Move>)
    requires Play(job, start, moves).Some? && Play(job, start, moves).value.stage.Done?
    ensures var p := Play(job, start, moves).value;
            && DecryptPacket(job.crypto, p.stage.reply).Success?
            && p.stage.text == TrimHash(DecryptPacket(job.crypto, p.stage.reply).value.pt)
  {
    if moves == [] {
    } else {
      var front, m := moves[..|moves| - 1], moves[|moves| - 1];
      if m.Wait? {
        DoneShowsReply(job, start, front);
      }
    }
  }

  // ---- The loop itself ----

  datatype Event = TimedOut | SocketError | Datagram(raw: Bytes)

  /** What the environment does in one pass of the loop. */
  datatype Pass = Pass(
    socketOk: bool,
    sendTime: i64,
    random: u8,
    salt: Bytes,
    nonce: Bytes,
    sendOk: bool,
    timeoutOk: bool,
    event: Event,
    recvTime: i64)

  /** The pass sends its request and then waits in vain. */
  predicate TimesOut(job: Job, w: Pass) {
    && w.socketOk && Frame(job.crypto, w.salt, w.nonce, w.sendTime, PaddedScript(job, w.random)).Success?
    && w.sendOk && w.timeoutOk && w.event == TimedOut
  }

  /** Clocks do not run backwards, salts and nonces have their sizes. */
  ghost predicate PlausiblePass(job: Job, world: nat -> Pass, i: nat) {
    var w := world(i);
    && ClockRange(w.sendTime) && ClockRange(w.recvTime) && w.sendTime <= w.recvTime <= world(i + 1).sendTime
    && |w.salt| == SALT_LEN && |w.nonce| == NONCE_LEN
  }

  ghost predicate Plausible(job: Job, world: nat -> Pass) {
    forall i: nat :: PlausiblePass(job, world, i)
  }

  lemma Extend(job: Job, start: i64, moves: seq<Move>, p: Progress, m: Move)
    requires Play(job, start, moves) == Some(p) && Possible(job, p, m)
    ensures Play(job, start, moves + [m]) == Some(Advance(job, p, m))
  {
    assert (moves + [m])[..|moves + [m]| - 1] == moves;
  }

  /** Appends one move to the run recorded so far. */
  lemma Then(job: Job, start: i64, moves: seq<Move>, more: seq<Move>, p: Progress, m: Move)
    returns (longer: seq<Move>, q: Progress)
    requires Play(job, start, moves + more) == Some(p) && Possible(job, p, m)
    ensures longer == more + [m] && q == Advance(job, p, m) && Play(job, start, moves + longer) == Some(q)
  {
    longer, q := more + [m], Advance(job, p, m);
    Extend(job, start, moves + more, p, m);
    assert moves + longer == moves + more + [m];
  }

  method Validate(job: Job, rwin: ReplayWindow, pkt: Bytes, now: i64, ghost p: Progress) returns (text: Option<Bytes>)
    requires rwin.window == job.window && rwin.maxSize == DEFAULT_REPLAY_MAX && rwin.entries == p.entries
    requires p.now == now
    modifies rwin
    ensures rwin.entries == Validated(job, p, pkt).entries
    ensures Validated(job, p, pkt).sent == p.sent && Validated(job, p, pkt).retries == p.retries
    ensures if text.Some? then Validated(job, p, pkt).stage == Done(pkt, text.value)
            else Validated(job, p, pkt).stage == Failed
  {
    if |pkt| < MIN_LEN {
      return None;
    }
    var ts := StampToTime(pkt[SALT_LEN..SALT_LEN + TS_LEN]);
    var nonce := pkt[SALT_LEN + TS_LEN..SALT_LEN + TS_LEN + NONCE_LEN];
    var isNew := rwin.ReplayCheck(now, ts, nonce);
    if !isNew {
      return None;
    }
    var unsealed := DecryptPacket(job.crypto, pkt);
    if unsealed.Failure? {
      return None;
    }
    rwin.ReplayAdd(ts, nonce);
    var pt := RemovePadding(unsealed.value.pt);
    text := Some(pt);
  }

  /** One pass of the loop; `again` tells whether the loop continues with a retry. */
  method OnePass(
      job: Job, rwin: ReplayWindow, w: Pass, retries: nat, ghost start: i64, ghost moves: seq<Move>, ghost p: Progress)
    returns (again: bool, text: Option<Bytes>, packet: Option<Bytes>, ghost more: seq<Move>, ghost q: Progress)
    requires rwin.window == job.window && rwin.maxSize == DEFAULT_REPLAY_MAX && rwin.entries == p.entries
    requires Play(job, start, moves) == Some(p) && p.stage == Ready && p.retries == retries
    requires p.now <= w.sendTime <= w.recvTime
    requires ClockRange(w.sendTime) && ClockRange(w.recvTime) && |w.salt| == SALT_LEN && |w.nonce| == NONCE_LEN
    modifies rwin
    ensures Play(job, start, moves + more) == Some(q)
    ensures rwin.entries == q.entries && q.sent == p.sent + (if packet.Some? then [packet.value] else [])
    ensures again <==> TimesOut(job, w) && retries < job.maxRetries
    ensures again ==> q.stage == Ready && q.retries == p.retries + 1 && q.now <= w.recvTime && text == None
    ensures !again ==> q.retries == p.retries
    ensures !again ==>
              if text.Some? then q.stage.Done? && q.stage.text == text.value else q.stage.Failed?
  {
    hide Play, DecryptPacket, Validated, Pushed, CmdPadding, Carries;
    again, text, packet := false, None, None;
    assert moves + [] == moves;
    var cmd := BuildPaddedCmd(job.script, w.random);
    if !w.socketOk {
      more, q := Then(job, start, moves, [], p, Abort);
      return;
    }
    more, q := Then(job, start, moves, [], p, Wait(w.sendTime - p.now));
    more, q := Then(job, start, moves, more, q, Transmit(w.random, w.salt, w.nonce, w.sendOk));
    var framed := EncryptPacket(job.crypto, w.salt, w.nonce, w.sendTime, cmd);
    if framed.Failure? || !w.sendOk {
      return;
    }
    packet := Some(framed.value);
    more, q := Then(job, start, moves, more, q, Record);
    rwin.ReplayAdd(w.sendTime, w.nonce);
    if !w.timeoutOk || w.event == SocketError {
      more, q := Then(job, start, moves, more, q, Abort);
      return;
    }
    more, q := Then(job, start, moves, more, q, Wait(w.recvTime - w.sendTime));
    if w.event == TimedOut {
      again := retries < job.maxRetries;
      more, q := Then(job, start, moves, more, q, Timeout);
      return;
    }
    text := Validate(job, rwin, Received(w.event.raw), w.recvTime, q);
    more, q := Then(job, start, moves, more, q, Reply(w.event.raw));
  }

  /** The client's main loop. It refines the stepped protocol: its packets and its result are those of a run. It
      goes on exactly while passes time out and retries are left. */
  method RunLoop(job: Job, rwin: ReplayWindow, world: nat -> Pass)
    returns (text: Option<Bytes>, sent: seq<Bytes>, ghost moves: seq<Move>, ghost p: Progress)
    requires rwin.window == job.window && rwin.maxSize == DEFAULT_REPLAY_MAX && rwin.entries == []
    requires Inverting(job.crypto) && Plausible(job, world)
    modifies rwin
    ensures Play(job, world(0).sendTime, moves) == Some(p)
    ensures sent == p.sent && rwin.entries == p.entries
    ensures if text.Some? then p.stage.Done? && p.stage.text == text.value else p.stage.Failed?
    ensures |sent| <= job.maxRetries + 1
    ensures p.retries <= job.maxRetries && forall i: nat :: i < p.retries ==> TimesOut(job, world(i))
    ensures TimesOut(job, world(p.retries)) ==> p.retries == job.maxRetries
  {
    hide TimesOut, DecryptPacket, Inverting;
    ghost var start := world(0).sendTime;
    assert PlausiblePass(job, world, 0);
    moves, p := [], Begin(start);
    assert Play(job, start, moves) == Some(p);
    hide Play;
    sent := [];
    var retries: nat := 0;
    while true
      invariant Play(job, start, moves) == Some(p)
      invariant p.stage == Ready && p.sent == sent && p.entries == rwin.entries && p.retries == retries
      invariant p.now <= world(retries).sendTime && retries <= job.maxRetries
      invariant forall i: nat :: i < retries ==> TimesOut(job, world(i))
      decreases job.maxRetries - retries
    {
      var w := world(retries);
      assert PlausiblePass(job, world, retries);
      var again, packet;
      ghost var more;
      again, text, packet, more, p := OnePass(job, rwin, w, retries, start, moves, p);
      moves := moves + more;
      if packet.Some? {
        sent := sent + [packet.value];
      }
      if !again {
        break;
      }
      retries := retries + 1;
    }
    RetryBound(job, start, moves);
  }
}
