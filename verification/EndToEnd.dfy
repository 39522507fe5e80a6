/** A client run against a server run. Nothing links the two but the packets: the theorem holds for every
    pair of runs, hence for every interleaving and every network between them. */
module EndToEnd {
  import opened Ints
  import opened Packet
  import opened Replay
  import Server
  import Client

  /** The executions whose packet is one of `pkts`. */
  ghost function ExecutionsOf(s: Server.State, pkts: seq<Bytes>): set<nat> {
    set k: nat | k < |s.execs| && s.execs[k].task < |s.tasks| && s.tasks[s.execs[k].task].pkt in pkts
  }

  lemma AtMostOneElement(xs: set<nat>)
    requires forall a, b :: a in xs && b in xs ==> a == b
    ensures |xs| <= 1
  {
    if xs != {} {
      var a :| a in xs;
      assert xs == {a};
    }
  }

  ghost predicate AncientPacket(c: Server.Config, pkt: Bytes) {
    Server.KeyOf(c.crypto, pkt).Some? && Ancient(Server.KeyOf(c.crypto, pkt).value.ts)
  }

  /** Executions of one packet share its key, so distinctly keyed ones are the same. */
  lemma SamePacketSameExecution(c: Server.Config, s: Server.State, pkt: Bytes, a: nat, b: nat)
    requires Server.ExecsInv(c, s)
    requires forall j, k :: 0 <= j < k < |s.execs| && s.execs[j].key == s.execs[k].key ==> Ancient(s.execs[k].key.ts)
    requires !AncientPacket(c, pkt)
    requires a in ExecutionsOf(s, [pkt]) && b in ExecutionsOf(s, [pkt])
    ensures a == b
  {
    hide DecryptPacket, Server.AdmittedAs, Server.OwnPair;
    assert Server.ExecOk(c, s.adds, s.tasks, s.execs[a]) && Server.ExecOk(c, s.adds, s.tasks, s.execs[b]);
  }

  lemma ExecutionsOfSplit(s: Server.State, front: seq<Bytes>, last: Bytes)
    ensures ExecutionsOf(s, front + [last]) == ExecutionsOf(s, front) + ExecutionsOf(s, [last])
  {
  }

  /** If only ancient pairs repeat, the executions of `n` packets that are not ancient number at most `n`. */
  lemma {:induction false} AtMostOnePerPacket(c: Server.Config, s: Server.State, pkts: seq<Bytes>)
    requires Server.ExecsInv(c, s)
    requires forall j, k :: 0 <= j < k < |s.execs| && s.execs[j].key == s.execs[k].key ==> Ancient(s.execs[k].key.ts)
    requires forall pkt :: pkt in pkts ==> !AncientPacket(c, pkt)
    ensures |ExecutionsOf(s, pkts)| <= |pkts|
  {
    if pkts == [] {
      assert ExecutionsOf(s, pkts) == {};
    } else {
      hide ExecutionsOf, Server.ExecsInv;
      var front, last := pkts[..|pkts| - 1], pkts[|pkts| - 1];
      AtMostOnePerPacket(c, s, front);
      var ofLast := ExecutionsOf(s, [last]);
      forall a, b | a in ofLast && b in ofLast
        ensures a == b
      {
        SamePacketSameExecution(c, s, last, a, b);
      }
      AtMostOneElement(ofLast);
      assert pkts == front + [last];
      ExecutionsOfSplit(s, front, last);
    }
  }

  /** Within the server's capacity, the packets of one client run are executed at most `maxRetries + 1` times
      in all, and every one of these executions is given the script without its trailing '#' run. */
  lemma ScriptExecutionBound(
      c: Server.Config, start: i64, steps: seq<Server.Step>, job: Client.Job, begin: i64, moves: seq<Client.Move>)
    requires Inverting(c.crypto) && job.crypto == c.crypto
    requires Server.Run(c, start, steps).Some? && Client.Play(job, begin, moves).Some?
    requires WithinCapacity(c.window, c.maxSize + 1, Server.Run(c, start, steps).value.adds)
    ensures var s, p := Server.Run(c, start, steps).value, Client.Play(job, begin, moves).value;
            && |ExecutionsOf(s, p.sent)| <= job.maxRetries + 1
            && forall k :: k in ExecutionsOf(s, p.sent) ==> s.execs[k].cmd == TrimHash(job.script)
  {
    var s, p := Server.Run(c, start, steps).value, Client.Play(job, begin, moves).value;
    Server.RunKeepsInv(c, start, steps);
    Server.AtMostOnce(c, start, steps);
    Client.RetryBound(job, begin, moves);
    AtMostOnePerPacket(c, s, p.sent);
    forall k | k in ExecutionsOf(s, p.sent)
      ensures s.execs[k].cmd == TrimHash(job.script)
    {
      assert Server.ExecOk(c, s.adds, s.tasks, s.execs[k]);
    }
  }

  /** The text a finished client run shows is the output of the execution by the task that sent its reply, without its
      trailing '#' run, if the reply is a packet the server sent. */
  lemma ReplyIsOutput(
      c: Server.Config, start: i64, steps: seq<Server.Step>, job: Client.Job, begin: i64, moves: seq<Client.Move>)
    returns (t: nat)
    requires Inverting(c.crypto) && job.crypto == c.crypto
    requires Server.Run(c, start, steps).Some? && Client.Play(job, begin, moves).Some?
    requires var s, p := Server.Run(c, start, steps).value, Client.Play(job, begin, moves).value;
             p.stage.Done? && p.stage.reply in s.emitted
    ensures var s, p := Server.Run(c, start, steps).value, Client.Play(job, begin, moves).value;
            Server.Post(p.stage.reply, t) in s.posts && Server.IsOutputOf(s.execs, t, p.stage.text)
  {
    hide Server.IsOutputOf, Server.IsResponseOf, DecryptPacket;
    Server.EmittedAnswers(c, start, steps);
    Client.DoneShowsReply(job, begin, moves);
    var s, p := Server.Run(c, start, steps).value, Client.Play(job, begin, moves).value;
    assert Server.Posted(s.posts, p.stage.reply);
    var i :| 0 <= i < |s.posts| && s.posts[i].pkt == p.stage.reply;
    t := s.posts[i].task;
    assert s.posts[i] == Server.Post(p.stage.reply, t);
    Server.AnswerShowsOutput(c, s.execs, t, p.stage.reply);
  }

  /** That output is the client's own if the task that sent the reply had received one of the client's packets. */
  lemma ReplyIsOwnOutput(
      c: Server.Config, start: i64, steps: seq<Server.Step>, job: Client.Job, begin: i64, moves: seq<Client.Move>,
      t: nat)
    returns (k: nat)
    requires Inverting(c.crypto) && job.crypto == c.crypto
    requires Server.Run(c, start, steps).Some? && Client.Play(job, begin, moves).Some?
    requires var s, p := Server.Run(c, start, steps).value, Client.Play(job, begin, moves).value;
             && p.stage.Done? && Server.Post(p.stage.reply, t) in s.posts
             && t < |s.tasks| && s.tasks[t].pkt in p.sent
    ensures var s, p := Server.Run(c, start, steps).value, Client.Play(job, begin, moves).value;
            && k < |s.execs| && s.execs[k].task == t && s.execs[k].cmd == TrimHash(job.script)
            && s.execs[k].output.Some? && TrimHash(s.execs[k].output.value) == p.stage.text
  {
    var s, p := Server.Run(c, start, steps).value, Client.Play(job, begin, moves).value;
    hide Server.Run, Client.Play;
    Server.EmittedAnswers(c, start, steps);
    Server.RunKeepsInv(c, start, steps);
    Client.DoneShowsReply(job, begin, moves);
    Client.RetryBound(job, begin, moves);
    var i :| 0 <= i < |s.posts| && s.posts[i] == Server.Post(p.stage.reply, t);
    assert Server.IsAnswerOf(c, s.execs, s.posts[i].task, s.posts[i].pkt);
    Server.AnswerShowsOutput(c, s.execs, t, p.stage.reply);
    k :| 0 <= k < |s.execs| && s.execs[k].task == t && s.execs[k].output.Some?
         && TrimHash(s.execs[k].output.value) == p.stage.text;
    assert Server.ExecOk(c, s.adds, s.tasks, s.execs[k]);
  }
}
