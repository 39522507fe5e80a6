/** What the protocol leaves open: a client takes any timely packet under the passphrase for its reply. */
module Replies {
  import opened Wrappers
  import opened Ints
  import opened Packet
  import opened Replay
  import opened Server
  import opened Capacity
  import opened OwnPackets
  import Client

  /** A client that waits at time 0 for the reply to its first request. */
  ghost predicate Waits(job: Client.Job, p: Client.Progress) {
    && p.now == 0 && p.stage == Client.Waiting && |p.sent| == 1
    && p.entries == Pushed([], Client.DEFAULT_REPLAY_MAX, Entry(0, NthNonce(1)))
  }

  lemma WaitsForFirst(job: Client.Job, salt: Bytes) returns (moves: seq<Client.Move>, p: Client.Progress)
    requires job.crypto.derive(salt).Some? && |salt| == SALT_LEN
    ensures Client.Play(job, 0, moves) == Some(p) && Waits(job, p)
  {
    assert Client.Play(job, 0, []) == Some(Client.Begin(0));
    hide Client.Play, NthNonce, Pushed, Client.PaddedScript;
    moves, p := PlayOn(job, [], Client.Begin(0), Client.Transmit(0, salt, NthNonce(1), true));
    moves, p := PlayOn(job, moves, p, Client.Record);
  }

  /** Another pair of the same time is admitted. */
  lemma AdmitsOther(job: Client.Job, p: Client.Progress)
    requires Waits(job, p)
    ensures Accepts(p.entries, job.window, 0, Entry(0, NthNonce(0)))
  {
    NoncesDiffer(0, 1);
    var e := Entry(0, NthNonce(1));
    assert p.entries == [e];
    WindowTestExact(job.window, 0, 0);
    RetainMember([e], job.window, 0, Entry(0, NthNonce(0)));
  }

  /** The client takes a packet under another pair for the reply, whatever it carries. */
  lemma TakesAny(job: Client.Job, salt: Bytes, pkt: Bytes, payload: Bytes)
    returns (moves: seq<Client.Move>, p: Client.Progress)
    requires job.crypto.derive(salt).Some? && |salt| == SALT_LEN && Received(pkt) == pkt && |pkt| >= MIN_LEN
    requires DecryptPacket(job.crypto, pkt) == Success(Opened(payload, NthNonce(0), 0))
    ensures Client.Play(job, 0, moves) == Some(p) && p.stage == Client.Done(pkt, TrimHash(payload)) && |p.sent| == 1
  {
    var before;
    hide Client.Play, NthNonce;
    moves, before := WaitsForFirst(job, salt);
    AdmitsOther(job, before);
    hide Accepts, Pruned, Pushed, DecryptPacket, Received, TrimHash;
    OpensAs(job, pkt, payload);
    moves, p := PlayOn(job, moves, before, Client.Reply(pkt));
  }

  lemma OpensAs(job: Client.Job, pkt: Bytes, payload: Bytes)
    requires |pkt| >= MIN_LEN && DecryptPacket(job.crypto, pkt) == Success(Opened(payload, NthNonce(0), 0))
    ensures StampToTime(pkt[SALT_LEN..SALT_LEN + TS_LEN]) == 0
    ensures pkt[SALT_LEN + TS_LEN..SALT_LEN + TS_LEN + NONCE_LEN] == NthNonce(0)
  {
    hide NthNonce;
  }

  /** Another client's request is taken for the reply: the text shown is that client's script. */
  lemma RequestTakenAsReply(job: Client.Job, other: Client.Job, salt: Bytes, random: u8)
    returns (moves: seq<Client.Move>, p: Client.Progress)
    requires Inverting(job.crypto) && other.crypto == job.crypto && |other.script| <= MAX_PT_SIZE
    requires job.crypto.derive(salt).Some? && |salt| == SALT_LEN
    ensures var request := Frame(job.crypto, salt, NthNonce(0), 0, Client.PaddedScript(other, random));
            && request.Success? && Client.IsRequest(other, request.value)
            && Client.Play(job, 0, moves) == Some(p)
            && p.stage == Client.Done(request.value, TrimHash(other.script))
  {
    hide NthNonce, Received;
    var payload := Client.PaddedScript(other, random);
    FramingRoundTrip(job.crypto, salt, NthNonce(0), 0, payload);
    CommandPacketFits(job.crypto, other.script, random, salt, NthNonce(0), 0);
    PaddingInverse(other.script, random);
    moves, p := TakesAny(job, salt, Frame(job.crypto, salt, NthNonce(0), 0, payload).value, payload);
  }

  lemma NonceIsFirst()
    ensures NONCE == NthNonce(0)
  {
    ZeroBytes(NONCE_LEN);
  }

  lemma {:induction false} ZeroBytes(n: nat)
    ensures BigEndian(0, n) == seq(n, _ => 0)
  {
    if n == 0 {
    } else {
      ZeroBytes(n - 1);
    }
  }

  /** The server receives only a packet of another client, and answers it with any output; the client of `job` takes
      that answer for its own reply and shows the output, whatever its own script. */
  lemma AnswerTakenFromOther(c: Config, job: Client.Job, salt: Bytes, script: Bytes, output: Bytes)
    returns (steps: seq<Step>, s: State, moves: seq<Client.Move>, p: Client.Progress)
    requires Inverting(c.crypto) && job.crypto == c.crypto && c.crypto.derive(salt).Some? && |salt| == SALT_LEN
    requires |script| <= MAX_PT_SIZE && |output| <= MAX_PT_SIZE
    ensures Run(c, 0, steps) == Some(s) && Client.Play(job, 0, moves) == Some(p)
    ensures |s.execs| == 1 && s.execs[0].cmd == TrimHash(script) && s.execs[0].output == Some(output)
    ensures p.stage.Done? && p.stage.reply in s.emitted && p.stage.text == TrimHash(output)
  {
    hide Run, Client.Play, Frame, Pushed, Received, NthNonce, DecryptPacket;
    var pkt, out := Packed(c, salt, NthNonce(2), 0, script), Packed(c, salt, NONCE, 0, output);
    PackedOpens(c, salt, NthNonce(2), 0, script);
    PackedOpens(c, salt, NONCE, 0, output);
    NonceIsFirst();
    steps, s := FirstAdmitted(c, 0, pkt, Entry(0, NthNonce(2)));
    steps, s := FirstSealed(c, 0, steps, s, salt, output, 0);
    steps, s := FirstSent(c, 0, steps, s, out, Entry(0, NONCE));
    moves, p := TakesAny(job, salt, out, output);
  }
}
