/** The command server: concurrent `process_packet` tasks sharing one replay window.

    A run is a sequence of steps. Each task advances through the steps of its own packet; any
    interleaving of tasks is a run. The network is unconstrained: a `Receive` step may present any
    bytes at all, so packets may be lost, duplicated, reordered, delayed or invented. */
module Server {
  import opened Wrappers
  import opened Ints
  import opened Packet
  import opened Replay

  datatype Config = Config(window: u32, maxSize: u32, crypto: Crypto)

  /** How far a task has come. `Accepted` holds the index of the addition that recorded its packet. */
  datatype Phase =
    | Arrived
    | Accepted(key: Entry, cmd: Bytes, index: nat)
    | Ran(output: Bytes)
    | Sealed(out: Bytes, key: Entry)
    | Registered(out: Bytes)
    | Finished

  /** `echoed` marks a packet that is one the server itself had put on the network. */
  datatype Task = Task(pkt: Bytes, echoed: bool, phase: Phase)

  /** One call of `execute_command`, the index of the addition that admitted its packet, and its output. */
  datatype Execution = Execution(task: nat, index: nat, key: Entry, cmd: Bytes, output: Option<Bytes>)

  /** A packet put on the network, and the task that sent it. */
  datatype Post = Post(pkt: Bytes, task: nat)

  /** `entries` is the shared queue; `posts`, `adds` and `execs` record every packet sent, every `replay_add` and every
      execution. */
  datatype State = State(
    now: i64,
    entries: seq<Entry>,
    tasks: seq<Task>,
    emitted: set<Bytes>,
    posts: seq<Post>,
    adds: seq<Addition>,
    execs: seq<Execution>)

  datatype Step =
    | Tick(seconds: nat)
    | Receive(raw: Bytes, echoed: bool)
    | Check(t: nat)
    | Execute(t: nat, output: Option<(Bytes, Bytes)>)
    | Seal(t: nat, random: u8, salt: Bytes, nonce: Bytes)
    | Register(t: nat)
    | Send(t: nat)

  function Init(now: i64): State {
    State(now, [], [], {}, [], [], [])
  }

  /** The pair by which the replay window knows a packet, for a packet that opens. */
  function KeyOf(c: Crypto, pkt: Bytes): Option<Entry> {
    match DecryptPacket(c, pkt)
    case Failure(_) => None
    case Success(o) => Some(Entry(o.ts, o.nonce))
  }

  predicate Enabled(c: Config, s: State, step: Step) {
    match step
    case Tick(seconds) => ClockRange(s.now + seconds)
    case Receive(raw, echoed) => echoed ==> Received(raw) in s.emitted
    case Check(t) => t < |s.tasks| && s.tasks[t].phase.Arrived?
    case Execute(t, _) => t < |s.tasks| && s.tasks[t].phase.Accepted?
    case Seal(t, _, salt, nonce) =>
      t < |s.tasks| && s.tasks[t].phase.Ran? && |salt| == SALT_LEN && |nonce| == NONCE_LEN
    case Register(t) => t < |s.tasks| && s.tasks[t].phase.Sealed?
    case Send(t) => t < |s.tasks| && s.tasks[t].phase.Registered?
  }

  function Moved(tasks: seq<Task>, t: nat, phase: Phase): seq<Task>
    requires t < |tasks|
  {
    tasks[t := tasks[t].(phase := phase)]
  }

  /** The first locked block of a task: open the packet, check it, record it. */
  function Checked(c: Config, s: State, t: nat): State
    requires t < |s.tasks|
  {
    match DecryptPacket(c.crypto, s.tasks[t].pkt)
    case Failure(_) => s.(tasks := Moved(s.tasks, t, Finished))
    case Success(o) =>
      var key := Entry(o.ts, o.nonce);
      var kept := Pruned(s.entries, c.window, s.now, o.ts);
      if Accepts(s.entries, c.window, s.now, key) then
        s.(entries := Pushed(kept, c.maxSize, key),
           adds := s.adds + [Addition(key, s.now, true, t)],
           tasks := Moved(s.tasks, t, Accepted(key, TrimHash(o.pt), |s.adds|)))
      else
        s.(entries := kept, tasks := Moved(s.tasks, t, Finished))
  }

  function Apply(c: Config, s: State, step: Step): State
    requires Enabled(c, s, step)
  {
    match step
    case Tick(seconds) => s.(now := s.now + seconds)
    case Receive(raw, echoed) => s.(tasks := s.tasks + [Task(Received(raw), echoed, Arrived)])
    case Check(t) => Checked(c, s, t)
    case Execute(t, output) =>
      var p := s.tasks[t].phase;
      var resp := if output == None then None else Some(CommandOutput(output.value.0, output.value.1));
      s.(tasks := Moved(s.tasks, t, if resp == None then Finished else Ran(resp.value)),
         execs := s.execs + [Execution(t, p.index, p.key, p.cmd, resp)])
    case Seal(t, random, salt, nonce) =>
      var output := s.tasks[t].phase.output;
      var resp := output + Hashes(ResponsePadding(|output|, random));
      var next := match Frame(c.crypto, salt, nonce, s.now, resp)
                  case Failure(_) => Finished
                  case Success(pkt) => Sealed(pkt, Entry(s.now, nonce));
      s.(tasks := Moved(s.tasks, t, next))
    case Register(t) =>
      var p := s.tasks[t].phase;
      s.(entries := Pushed(s.entries, c.maxSize, p.key),
         adds := s.adds + [Addition(p.key, s.now, false, t)],
         tasks := Moved(s.tasks, t, Registered(p.out)))
    case Send(t) =>
      s.(emitted := s.emitted + {s.tasks[t].phase.out}, posts := s.posts + [Post(s.tasks[t].phase.out, t)],
         tasks := Moved(s.tasks, t, Finished))
  }

  /** The state after a sequence of steps from a start at time `start`, if each step was enabled. */
  function Run(c: Config, start: i64, steps: seq<Step>): Option<State> {
    if steps == [] then (if ClockRange(start) then Some(Init(start)) else None)
    else
      match Run(c, start, steps[..|steps| - 1])
      case None => None
      case Some(s) =>
        var step := steps[|steps| - 1];
        if Enabled(c, s, step) then Some(Apply(c, s, step)) else None
  }

  /** The locked admission block as task `t` runs it on the shared window object. */
  method Admit(c: Config, rw: ReplayWindow, pkt: Bytes, now: i64, ghost s: State, ghost t: nat)
    returns (r: Option<(Entry, Bytes)>)
    requires rw.window == c.window && rw.maxSize == c.maxSize && rw.entries == s.entries
    requires s.now == now && t < |s.tasks| && s.tasks[t].pkt == pkt
    modifies rw
    ensures rw.entries == Checked(c, s, t).entries
    ensures Checked(c, s, t).tasks[t].phase
         == if r == None then Finished else Accepted(r.value.0, r.value.1, |s.adds|)
  {
    var unsealed := DecryptPacket(c.crypto, pkt);
    if unsealed.Failure? {
      return None;
    }
    var o := unsealed.value;
    var isNew := rw.ReplayCheck(now, o.ts, o.nonce);
    if !isNew {
      return None;
    }
    rw.ReplayAdd(o.ts, o.nonce);
    var cmd := RemovePadding(o.pt);
    r := Some((Entry(o.ts, o.nonce), cmd));
  }

  /** The response of task `t`, padded and sealed; `None` if no key could be derived. */
  method SealResponse(
      c: Config, output: Bytes, now: i64, random: u8, salt: Bytes, nonce: Bytes, ghost s: State, ghost t: nat)
    returns (r: Option<(Bytes, Entry)>)
    requires Enabled(c, s, Seal(t, random, salt, nonce)) && s.now == now && s.tasks[t].phase == Ran(output)
    ensures Apply(c, s, Seal(t, random, salt, nonce)).tasks[t].phase
         == if r == None then Finished else Sealed(r.value.0, r.value.1)
  {
    var resp := PadResponse(output, random);
    var enc := EncryptPacket(c.crypto, salt, nonce, now, resp);
    if enc.Failure? {
      return None;
    }
    r := Some((enc.value, Entry(now, nonce)));
  }

  /** The second locked block: the pair of a response is recorded before the response is sent. */
  method RegisterResponse(c: Config, rw: ReplayWindow, key: Entry, ghost s: State, ghost t: nat)
    requires rw.window == c.window && rw.maxSize == c.maxSize && rw.entries == s.entries
    requires Enabled(c, s, Register(t)) && s.tasks[t].phase.key == key
    modifies rw
    ensures rw.entries == Apply(c, s, Register(t)).entries
  {
    rw.ReplayAdd(key.ts, key.nonce);
  }

  // ---- The invariant of every run ----

  /** The server recorded the pair `key` for a response of its own, before addition `bound`. */
  ghost predicate OwnPair(adds: seq<Addition>, bound: int, key: Entry) {
    exists i :: 0 <= i < bound <= |adds| && !adds[i].accepted && adds[i].entry == key
  }

  ghost predicate WindowOk(c: Config, s: State) {
    WindowInv(c.window, c.maxSize, s.now, s.entries, s.adds)
  }

  ghost predicate AdmittedAs(adds: seq<Addition>, index: nat, key: Entry, t: nat) {
    index < |adds| && adds[index].entry == key && adds[index].accepted && adds[index].owner == t
  }

  ghost predicate OwnPacket(c: Config, adds: seq<Addition>, pkt: Bytes) {
    KeyOf(c.crypto, pkt).Some? && OwnPair(adds, |adds|, KeyOf(c.crypto, pkt).value)
  }

  /** The command a packet carries. */
  ghost predicate Carries(c: Config, pkt: Bytes, key: Entry, cmd: Bytes) {
    && DecryptPacket(c.crypto, pkt).Success?
    && key == Entry(DecryptPacket(c.crypto, pkt).value.ts, DecryptPacket(c.crypto, pkt).value.nonce)
    && cmd == TrimHash(DecryptPacket(c.crypto, pkt).value.pt)
  }

  /** A text is the output of the task's execution, up to padding. */
  ghost predicate IsOutputOf(execs: seq<Execution>, t: nat, text: Bytes) {
    exists k :: 0 <= k < |execs| && execs[k].task == t && execs[k].output.Some?
                && TrimHash(execs[k].output.value) == text
  }

  /** A text is the output of the task's execution followed by '#' only, as far as `pad` such bytes. */
  ghost predicate IsResponseOf(execs: seq<Execution>, t: nat, text: Bytes, pad: nat) {
    exists k :: 0 <= k < |execs| && execs[k].task == t && execs[k].output.Some?
                && IsPadded(text, execs[k].output.value) && |text| <= |execs[k].output.value| + pad
  }

  /** A packet opens to the output of the task's execution followed by at most 255 times '#'. */
  ghost predicate IsAnswerOf(c: Config, execs: seq<Execution>, t: nat, pkt: Bytes) {
    DecryptPacket(c.crypto, pkt).Success? && IsResponseOf(execs, t, DecryptPacket(c.crypto, pkt).value.pt, 0xFF)
  }

  ghost predicate AnswerOk(c: Config, execs: seq<Execution>, t: nat, task: Task) {
    match task.phase
    case Ran(output) => IsResponseOf(execs, t, output, 0)
    case Sealed(out, _) => IsAnswerOf(c, execs, t, out)
    case Registered(out) => IsAnswerOf(c, execs, t, out)
    case _ => true
  }

  ghost predicate Posted(posts: seq<Post>, pkt: Bytes) {
    exists i :: 0 <= i < |posts| && posts[i].pkt == pkt
  }

  ghost predicate AnswersInv(c: Config, s: State) {
    && (forall t :: 0 <= t < |s.tasks| ==> AnswerOk(c, s.execs, t, s.tasks[t]))
    && (forall i :: 0 <= i < |s.posts| ==> IsAnswerOf(c, s.execs, s.posts[i].task, s.posts[i].pkt))
    && (forall pkt :: pkt in s.emitted ==> Posted(s.posts, pkt))
  }

  ghost predicate TaskOk(c: Config, now: int, adds: seq<Addition>, t: nat, task: Task) {
    match task.phase
    case Arrived => task.echoed ==> OwnPacket(c, adds, task.pkt)
    case Accepted(key, cmd, index) =>
      && AdmittedAs(adds, index, key, t) && Carries(c, task.pkt, key, cmd)
      && (task.echoed ==> OwnPair(adds, index, key))
    case Sealed(out, key) => KeyOf(c.crypto, out) == Some(key) && 0 <= key.ts <= now
    case Registered(out) => OwnPacket(c, adds, out)
    case _ => true
  }

  ghost predicate TasksInv(c: Config, s: State) {
    && (forall t :: 0 <= t < |s.tasks| ==> TaskOk(c, s.now, s.adds, t, s.tasks[t]))
    && (forall pkt :: pkt in s.emitted ==> OwnPacket(c, s.adds, pkt))
  }

  ghost predicate ExecOk(c: Config, adds: seq<Addition>, tasks: seq<Task>, x: Execution) {
    && x.task < |tasks| && !tasks[x.task].phase.Arrived? && !tasks[x.task].phase.Accepted?
    && AdmittedAs(adds, x.index, x.key, x.task) && Carries(c, tasks[x.task].pkt, x.key, x.cmd)
    && (tasks[x.task].echoed ==> OwnPair(adds, x.index, x.key))
  }

  ghost predicate ExecsInv(c: Config, s: State) {
    && (forall k :: 0 <= k < |s.execs| ==> ExecOk(c, s.adds, s.tasks, s.execs[k]))
    && (forall j, k :: 0 <= j < k < |s.execs| ==> s.execs[j].task != s.execs[k].task)
  }

  ghost predicate Inv(c: Config, s: State) {
    WindowOk(c, s) && TasksInv(c, s) && ExecsInv(c, s)
  }

  lemma CheckKeepsWindow(c: Config, s: State, t: nat)
    requires Inv(c, s) && Enabled(c, s, Check(t))
    ensures WindowOk(c, Checked(c, s, t))
  {
    match DecryptPacket(c.crypto, s.tasks[t].pkt)
    case Failure(_) =>
    case Success(o) =>
      var key := Entry(o.ts, o.nonce);
      assert KeyOf(c.crypto, s.tasks[t].pkt) == Some(key);
      var kept := Pruned(s.entries, c.window, s.now, o.ts);
      WindowPruned(c.window, c.maxSize, s.now, s.entries, s.adds, o.ts);
      WindowTestExact(c.window, s.now, o.ts);
      if Accepts(s.entries, c.window, s.now, key) {
        WindowAdd(c.window, c.maxSize, s.now, s.entries, s.adds, key, true, t, kept);
      }
  }

  lemma StepKeepsWindow(c: Config, s: State, step: Step)
    requires Inv(c, s) && Enabled(c, s, step)
    ensures WindowOk(c, Apply(c, s, step))
  {
    match step
    case Tick(seconds) => WindowLater(c.window, c.maxSize, s.now, s.now + seconds, s.entries, s.adds);
    case Check(t) => CheckKeepsWindow(c, s, t);
    case Register(t) =>
      assert TaskOk(c, s.now, s.adds, t, s.tasks[t]);
      WindowAdd(c.window, c.maxSize, s.now, s.entries, s.adds, s.tasks[t].phase.key, false, t, s.entries);
    case _ =>
  }

  lemma OwnPairGrows(adds: seq<Addition>, more: seq<Addition>, bound: int, wider: int, key: Entry)
    requires OwnPair(adds, bound, key) && bound <= wider <= |adds + more|
    ensures OwnPair(adds + more, wider, key)
  {
    var i :| 0 <= i < bound <= |adds| && !adds[i].accepted && adds[i].entry == key;
    assert (adds + more)[i] == adds[i];
  }

  /** What holds of a task keeps holding as time passes and additions accumulate. */
  lemma TaskOkGrows(c: Config, now: int, later: int, adds: seq<Addition>, more: seq<Addition>, t: nat, task: Task)
    requires TaskOk(c, now, adds, t, task) && now <= later
    ensures TaskOk(c, later, adds + more, t, task)
  {
    match task.phase
    case Arrived =>
      if task.echoed {
        OwnPairGrows(adds, more, |adds|, |adds + more|, KeyOf(c.crypto, task.pkt).value);
      }
    case Accepted(key, cmd, index) =>
      if task.echoed {
        OwnPairGrows(adds, more, index, index, key);
      }
    case Registered(out) => OwnPairGrows(adds, more, |adds|, |adds + more|, KeyOf(c.crypto, out).value);
    case _ =>
  }

  lemma EmittedGrows(c: Config, adds: seq<Addition>, more: seq<Addition>, pkt: Bytes)
    requires OwnPacket(c, adds, pkt)
    ensures OwnPacket(c, adds + more, pkt)
  {
    OwnPairGrows(adds, more, |adds|, |adds + more|, KeyOf(c.crypto, pkt).value);
  }

  lemma ExecOkGrows(c: Config, adds: seq<Addition>, more: seq<Addition>, tasks: seq<Task>, x: Execution)
    requires ExecOk(c, adds, tasks, x)
    ensures ExecOk(c, adds + more, tasks, x)
  {
    if tasks[x.task].echoed {
      OwnPairGrows(adds, more, x.index, x.index, x.key);
    }
  }

  /** The state a task is left in by its own step. */
  lemma MovedTaskOk(c: Config, s: State, step: Step)
    requires Inverting(c.crypto) && Inv(c, s) && Enabled(c, s, step) && !step.Tick? && !step.Receive?
    ensures var s' := Apply(c, s, step);
            |s'.tasks| == |s.tasks| && TaskOk(c, s'.now, s'.adds, step.t, s'.tasks[step.t])
    ensures step.Send? ==> OwnPacket(c, s.adds, s.tasks[step.t].phase.out)
  {
    var s' := Apply(c, s, step);
    assert TaskOk(c, s.now, s.adds, step.t, s.tasks[step.t]);
    match step
    case Check(t) =>
      if s'.tasks[t].phase.Accepted? && s.tasks[t].echoed {
        assert OwnPair(s.adds, |s.adds|, s'.tasks[t].phase.key);
        OwnPairGrows(s.adds, s'.adds[|s.adds|..], |s.adds|, |s.adds|, s'.tasks[t].phase.key);
        assert s'.adds == s.adds + s'.adds[|s.adds|..];
      }
    case Seal(t, random, salt, nonce) =>
      var output := s.tasks[t].phase.output;
      var resp := output + Hashes(ResponsePadding(|output|, random));
      if Frame(c.crypto, salt, nonce, s.now, resp).Success? {
        FramingRoundTrip(c.crypto, salt, nonce, s.now, resp);
      }
    case Register(t) =>
      assert s'.adds[|s.adds|].entry == s.tasks[t].phase.key;
    case _ =>
  }

  lemma AddsGrow(c: Config, s: State, step: Step) returns (more: seq<Addition>)
    requires Enabled(c, s, step)
    ensures Apply(c, s, step).adds == s.adds + more
  {
    more := Apply(c, s, step).adds[|s.adds|..];
  }

  lemma StepKeepsTasks(c: Config, s: State, step: Step)
    requires Inverting(c.crypto) && Inv(c, s) && Enabled(c, s, step)
    ensures TasksInv(c, Apply(c, s, step))
  {
    var s' := Apply(c, s, step);
    var more := AddsGrow(c, s, step);
    if !step.Tick? && !step.Receive? {
      MovedTaskOk(c, s, step);
    }
    forall t | 0 <= t < |s'.tasks|
      ensures TaskOk(c, s'.now, s'.adds, t, s'.tasks[t])
    {
      if t < |s.tasks| && s'.tasks[t] == s.tasks[t] {
        TaskOkGrows(c, s.now, s'.now, s.adds, more, t, s.tasks[t]);
      }
    }
    forall pkt | pkt in s'.emitted
      ensures OwnPacket(c, s'.adds, pkt)
    {
      if pkt in s.emitted {
        EmittedGrows(c, s.adds, more, pkt);
      }
    }
  }

  lemma StepKeepsExecs(c: Config, s: State, step: Step)
    requires Inv(c, s) && Enabled(c, s, step)
    ensures ExecsInv(c, Apply(c, s, step))
  {
    hide Carries, OwnPair, Pushed, Pruned, Accepts, DecryptPacket, Frame, Separated, Chronicle, Tracks;
    var s' := Apply(c, s, step);
    var more := AddsGrow(c, s, step);
    if step.Execute? {
      assert TaskOk(c, s.now, s.adds, step.t, s.tasks[step.t]);
    }
    forall k | 0 <= k < |s'.execs|
      ensures ExecOk(c, s'.adds, s'.tasks, s'.execs[k])
    {
      if k < |s.execs| {
        assert ExecOk(c, s.adds, s.tasks, s.execs[k]);
        ExecOkGrows(c, s.adds, more, s.tasks, s.execs[k]);
      }
    }
    forall j, k | 0 <= j < k < |s'.execs|
      ensures s'.execs[j].task != s'.execs[k].task
    {
      assert ExecOk(c, s.adds, s.tasks, s.execs[j]);
    }
  }

  lemma ResponseGrows(execs: seq<Execution>, more: seq<Execution>, t: nat, text: Bytes, pad: nat)
    requires IsResponseOf(execs, t, text, pad)
    ensures IsResponseOf(execs + more, t, text, pad)
  {
    var k :| 0 <= k < |execs| && execs[k].task == t && execs[k].output.Some?
             && IsPadded(text, execs[k].output.value) && |text| <= |execs[k].output.value| + pad;
    assert (execs + more)[k] == execs[k];
  }

  lemma AnswerGrows(c: Config, execs: seq<Execution>, more: seq<Execution>, t: nat, task: Task)
    requires AnswerOk(c, execs, t, task)
    ensures AnswerOk(c, execs + more, t, task)
  {
    match task.phase
    case Ran(output) => ResponseGrows(execs, more, t, output, 0);
    case Sealed(out, _) => ResponseGrows(execs, more, t, DecryptPacket(c.crypto, out).value.pt, 0xFF);
    case Registered(out) => ResponseGrows(execs, more, t, DecryptPacket(c.crypto, out).value.pt, 0xFF);
    case _ =>
  }

  /** An output padded once is a response. */
  lemma PaddedIsResponse(execs: seq<Execution>, t: nat, output: Bytes, resp: Bytes)
    requires IsResponseOf(execs, t, output, 0) && IsPadded(resp, output) && |resp| <= |output| + 0xFF
    ensures IsResponseOf(execs, t, resp, 0xFF)
  {
    var k :| 0 <= k < |execs| && execs[k].task == t && execs[k].output.Some?
             && IsPadded(output, execs[k].output.value) && |output| <= |execs[k].output.value|;
    assert output == execs[k].output.value;
  }

  lemma AnswerShowsOutput(c: Config, execs: seq<Execution>, t: nat, pkt: Bytes)
    requires IsAnswerOf(c, execs, t, pkt)
    ensures IsOutputOf(execs, t, TrimHash(DecryptPacket(c.crypto, pkt).value.pt))
  {
    var pt := DecryptPacket(c.crypto, pkt).value.pt;
    var k :| 0 <= k < |execs| && execs[k].task == t && execs[k].output.Some? && IsPadded(pt, execs[k].output.value);
    PaddedTrims(pt, execs[k].output.value);
  }

  /** The response a task seals opens to its output. */
  lemma MovedAnswerOk(c: Config, s: State, step: Step)
    requires Inverting(c.crypto) && AnswersInv(c, s) && Enabled(c, s, step) && !step.Tick? && !step.Receive?
    ensures AnswerOk(c, Apply(c, s, step).execs, step.t, Apply(c, s, step).tasks[step.t])
    ensures step.Send? ==> IsAnswerOf(c, s.execs, step.t, s.tasks[step.t].phase.out)
  {
    assert AnswerOk(c, s.execs, step.t, s.tasks[step.t]);
    match step
    case Execute(t, output) =>
      assert Apply(c, s, step).execs[|s.execs|].task == t;
    case Seal(t, random, salt, nonce) =>
      var output := s.tasks[t].phase.output;
      var resp := output + Hashes(ResponsePadding(|output|, random));
      if Frame(c.crypto, salt, nonce, s.now, resp).Success? {
        FramingRoundTrip(c.crypto, salt, nonce, s.now, resp);
        HashesPad(output, ResponsePadding(|output|, random));
        PaddedIsResponse(s.execs, t, output, resp);
      }
    case _ =>
  }

  /** An execution is recorded under the pair and the command of its packet. A command that could not be run ends the
      task; else its output is standard output and then standard error, cut to the payload limit. */
  lemma ExecutedOutput(c: Config, s: State, t: nat, output: Option<(Bytes, Bytes)>)
    requires Enabled(c, s, Execute(t, output))
    ensures var s', p := Apply(c, s, Execute(t, output)), s.tasks[t].phase;
            && |s'.execs| == |s.execs| + 1 && s'.execs[..|s.execs|] == s.execs
            && var x := s'.execs[|s.execs|];
            && x.task == t && x.index == p.index && x.key == p.key && x.cmd == p.cmd
            && if output == None then x.output == None && s'.tasks[t].phase == Finished
               else
                 && s'.tasks[t].phase.Ran? && x.output == Some(s'.tasks[t].phase.output)
                 && x.output.value <= output.value.0 + output.value.1
                 && (|x.output.value| == MAX_PT_SIZE
                     || (|x.output.value| < MAX_PT_SIZE && x.output.value == output.value.0 + output.value.1))
  {
  }

  /** Sealing fails only where no key can be derived. The packet it leaves opens, under the nonce given and the time
      of the step, to the output and behind it '#' as often as the random byte says, as long as the whole stays under
      the payload limit; nothing else changes. */
  lemma SealedPadded(c: Config, s: State, t: nat, random: u8, salt: Bytes, nonce: Bytes)
    requires Inverting(c.crypto) && Enabled(c, s, Seal(t, random, salt, nonce))
    ensures var s' := Apply(c, s, Seal(t, random, salt, nonce));
            && s' == s.(tasks := s'.tasks) && |s'.tasks| == |s.tasks|
            && (forall i :: 0 <= i < |s.tasks| && i != t ==> s'.tasks[i] == s.tasks[i])
            && s'.tasks[t].pkt == s.tasks[t].pkt && s'.tasks[t].echoed == s.tasks[t].echoed
            && match s'.tasks[t].phase
               case Finished => c.crypto.derive(salt).None?
               case Sealed(out, key) =>
                 var r, len := DecryptPacket(c.crypto, out), |s.tasks[t].phase.output|;
                 && key == Entry(s.now, nonce) && out[..SALT_LEN] == salt
                 && r.Success? && r.value.ts == s.now && r.value.nonce == nonce
                 && IsPadded(r.value.pt, s.tasks[t].phase.output)
                 && |r.value.pt| == (if len >= MAX_PT_SIZE - 2 then len
                                     else if len + random < MAX_PT_SIZE then len + random else MAX_PT_SIZE - 1)
               case _ => false
  {
    var output := s.tasks[t].phase.output;
    var resp := output + Hashes(ResponsePadding(|output|, random));
    HashesPad(output, ResponsePadding(|output|, random));
    if c.crypto.derive(salt).Some? {
      FramingRoundTrip(c.crypto, salt, nonce, s.now, resp);
      PacketLayout(c.crypto, salt, nonce, s.now, resp);
    }
  }

  lemma PostGrows(posts: seq<Post>, post: Post, pkt: Bytes)
    requires Posted(posts, pkt) || post.pkt == pkt
    ensures Posted(posts + [post], pkt)
  {
    if post.pkt == pkt {
      assert (posts + [post])[|posts|].pkt == pkt;
    } else {
      var i :| 0 <= i < |posts| && posts[i].pkt == pkt;
      assert (posts + [post])[i].pkt == pkt;
    }
  }

  lemma StepKeepsAnswers(c: Config, s: State, step: Step)
    requires Inverting(c.crypto) && AnswersInv(c, s) && Enabled(c, s, step)
    ensures AnswersInv(c, Apply(c, s, step))
  {
    hide IsResponseOf, Posted, DecryptPacket, Frame, Accepts, Pruned, Pushed;
    var s' := Apply(c, s, step);
    var more := s'.execs[|s.execs|..];
    assert s'.execs == s.execs + more;
    if !step.Tick? && !step.Receive? {
      MovedAnswerOk(c, s, step);
    }
    forall t | 0 <= t < |s'.tasks|
      ensures AnswerOk(c, s'.execs, t, s'.tasks[t])
    {
      if t < |s.tasks| && s'.tasks[t] == s.tasks[t] {
        AnswerGrows(c, s.execs, more, t, s.tasks[t]);
      }
    }
    forall i | 0 <= i < |s'.posts|
      ensures IsAnswerOf(c, s'.execs, s'.posts[i].task, s'.posts[i].pkt)
    {
      var post := s'.posts[i];
      ResponseGrows(s.execs, more, post.task, DecryptPacket(c.crypto, post.pkt).value.pt, 0xFF);
    }
    forall pkt | pkt in s'.emitted
      ensures Posted(s'.posts, pkt)
    {
      if step.Send? {
        PostGrows(s.posts, s'.posts[|s.posts|], pkt);
      }
    }
  }

  /** Every packet the server emits opens to the output of an execution, by the task that sent it, followed by at most
      255 times '#'. */
  lemma {:induction false} EmittedAnswers(c: Config, start: i64, steps: seq<Step>)
    requires Inverting(c.crypto) && Run(c, start, steps).Some?
    ensures AnswersInv(c, Run(c, start, steps).value)
  {
    if steps == [] {
    } else {
      EmittedAnswers(c, start, steps[..|steps| - 1]);
      StepKeepsAnswers(c, Run(c, start, steps[..|steps| - 1]).value, steps[|steps| - 1]);
    }
  }

  lemma {:induction false} RunKeepsInv(c: Config, start: i64, steps: seq<Step>)
    requires Inverting(c.crypto) && Run(c, start, steps).Some?
    ensures Inv(c, Run(c, start, steps).value)
  {
    if steps == [] {
      WindowInitially(c.window, c.maxSize, start);
    } else {
      RunKeepsInv(c, start, steps[..|steps| - 1]);
      var s := Run(c, start, steps[..|steps| - 1]).value;
      var step := steps[|steps| - 1];
      StepKeepsWindow(c, s, step);
      StepKeepsTasks(c, s, step);
      StepKeepsExecs(c, s, step);
    }
  }

  // ---- Safety over every run ----

  /** If one (timestamp, nonce) pair is executed twice, and is not ancient, then at least `maxSize` additions happened
      after the first acceptance and before the second, all within twice the window. */
  lemma ReexecutionNeedsEviction(c: Config, start: i64, steps: seq<Step>, j: nat, k: nat)
    requires Inverting(c.crypto) && Run(c, start, steps).Some?
    requires var s := Run(c, start, steps).value;
             j < |s.execs| && k < |s.execs| && j != k && s.execs[j].key == s.execs[k].key
             && s.execs[j].index <= s.execs[k].index && !Ancient(s.execs[k].key.ts)
    ensures var s := Run(c, start, steps).value;
            var first, second := s.execs[j].index, s.execs[k].index;
            && first < second < |s.adds| && second - first - 1 >= c.maxSize
            && s.adds[second].at - s.adds[first].at <= 2 * c.window
  {
    hide Carries, OwnPair, Tracks, Enabled, Apply, Run, TaskOk;
    RunKeepsInv(c, start, steps);
    var s := Run(c, start, steps).value;
    assert ExecOk(c, s.adds, s.tasks, s.execs[j]) && ExecOk(c, s.adds, s.tasks, s.execs[k]);
    assert Dated(c.window, s.adds[s.execs[k].index]);
    assert s.execs[j].key.ts <= s.adds[s.execs[j].index].at + c.window;
  }

  /** With at most `maxSize + 1` additions in any closed span of twice the window, no pair is executed twice but an
      ancient one. */
  lemma AtMostOnce(c: Config, start: i64, steps: seq<Step>)
    requires Inverting(c.crypto) && Run(c, start, steps).Some?
    requires WithinCapacity(c.window, c.maxSize + 1, Run(c, start, steps).value.adds)
    ensures var s := Run(c, start, steps).value;
            forall j, k :: 0 <= j < k < |s.execs| && s.execs[j].key == s.execs[k].key ==> Ancient(s.execs[k].key.ts)
  {
    var s := Run(c, start, steps).value;
    forall j, k | 0 <= j < k < |s.execs| && s.execs[j].key == s.execs[k].key
      ensures Ancient(s.execs[k].key.ts)
    {
      if !Ancient(s.execs[k].key.ts) {
        var ordered := s.execs[j].index <= s.execs[k].index;
        ReexecutionNeedsEviction(c, start, steps, if ordered then j else k, if ordered then k else j);
      }
    }
  }

  /** A packet the server emitted itself is executed only if at least `maxSize` additions happened after the
      one that recorded it, all within twice the window; within capacity it is never executed. */
  lemma SelfExecutionNeedsEviction(c: Config, start: i64, steps: seq<Step>, k: nat) returns (own: nat)
    requires Inverting(c.crypto) && Run(c, start, steps).Some?
    requires var s := Run(c, start, steps).value;
             k < |s.execs| && s.execs[k].task < |s.tasks| && s.tasks[s.execs[k].task].echoed
    ensures var s := Run(c, start, steps).value;
            && own < s.execs[k].index < |s.adds| && !s.adds[own].accepted && s.adds[own].entry == s.execs[k].key
            && s.execs[k].index - own - 1 >= c.maxSize
            && s.adds[s.execs[k].index].at - s.adds[own].at <= 2 * c.window
            && !WithinCapacity(c.window, c.maxSize + 1, s.adds)
  {
    hide Tracks, Enabled, Apply, Run, TaskOk;
    RunKeepsInv(c, start, steps);
    var s := Run(c, start, steps).value;
    var x := s.execs[k];
    assert ExecOk(c, s.adds, s.tasks, x);
    own :| 0 <= own < x.index && !s.adds[own].accepted && s.adds[own].entry == x.key;
    assert Dated(c.window, s.adds[x.index]) && 0 <= x.key.ts;
    assert x.key.ts <= s.adds[own].at + c.window;
  }

  /** When at most `maxSize` additions fall in any closed span of twice the window, a task waiting for its check is
      admitted exactly when its packet opens, is timely, and was never recorded before in the whole run; and that is
      so for every packet but one stamped exactly 2^63 seconds before the clock. */
  lemma AdmissionExact(c: Config, start: i64, steps: seq<Step>, t: nat)
    requires Inverting(c.crypto) && Run(c, start, steps).Some?
    requires WithinCapacity(c.window, c.maxSize, Run(c, start, steps).value.adds)
    requires t < |Run(c, start, steps).value.tasks| && Run(c, start, steps).value.tasks[t].phase.Arrived?
    ensures var s := Run(c, start, steps).value;
            var key := KeyOf(c.crypto, s.tasks[t].pkt);
            (Checked(c, s, t).tasks[t].phase.Accepted? <==>
              (key.Some? && Near(c.window, s.now, key.value.ts)
               && forall i :: 0 <= i < |s.adds| ==> s.adds[i].entry != key.value))
            <==> !(key.Some? && key.value.ts == s.now - TWO_63)
  {
    hide Run, Tracks, Chronicle, WithinCapacity, Accepts, Pruned, Pushed, Separated;
    RunKeepsInv(c, start, steps);
    var s := Run(c, start, steps).value;
    match DecryptPacket(c.crypto, s.tasks[t].pkt)
    case Failure(_) =>
    case Success(o) =>
      QueueRefinesHistory(c.window, c.maxSize, s.now, s.adds, s.entries, Entry(o.ts, o.nonce));
  }
}
