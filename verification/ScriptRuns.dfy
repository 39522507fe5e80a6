/** What a script runs, and what a dump lists, told from their text. */
module ScriptRuns {
  import opened Wrappers
  import opened Ints
  import opened Text
  import opened Helper
  import opened Commands
  import opened DumpScript

  // ---- Commands one after the other ----

  /** Split commands run in order, up to the first failure. */
  function RunAll(env: Env, ls: Listing, k: Kernel, cmds: seq<seq<string>>): (Kernel, Outcome)
    requires [] !in cmds
    decreases |cmds|
  {
    if cmds == [] then (k, Ok)
    else
      assert cmds[0] in cmds;
      var (k1, r) := Dispatch(env, ls, k, cmds[0]);
      if r != Ok then (k1, r) else RunAll(env, ls, k1, cmds[1..])
  }

  lemma {:induction false} RunAllAppend(
      env: Env, ls: Listing, k: Kernel, cmds: seq<seq<string>>, more: seq<seq<string>>)
    requires [] !in cmds && [] !in more
    ensures var (k1, r) := RunAll(env, ls, k, cmds);
            RunAll(env, ls, k, cmds + more) == if r != Ok then (k1, r) else RunAll(env, ls, k1, more)
    decreases |cmds|
  {
    hide Dispatch;
    if cmds == [] {
      assert cmds + more == more;
    } else {
      assert cmds[0] in cmds && (cmds + more)[1..] == cmds[1..] + more;
      var (k1, r) := Dispatch(env, ls, k, cmds[0]);
      RunAllAppend(env, ls, k1, cmds[1..], more);
    }
  }

  /** A command of one or more words that no quoting rule touches. */
  ghost predicate SafeCommand(cmd: seq<string>) {
    cmd != [] && forall w :: w in cmd ==> SafeWord(w)
  }

  ghost predicate SafeCommands(cmds: seq<seq<string>>) {
    forall cmd :: cmd in cmds ==> SafeCommand(cmd)
  }

  /** Commands on one line. */
  function LineOf(cmds: seq<seq<string>>): string {
    if cmds == [] then ""
    else if |cmds| == 1 then Join(cmds[0])
    else Join(cmds[0]) + [';'] + (" " + LineOf(cmds[1..]))
  }

  lemma CommandText(cmd: seq<string>)
    requires SafeCommand(cmd)
    ensures Join(cmd) != "" && !IsSpace(Join(cmd)[0]) && Join(cmd)[0] != '#'
    ensures !IsSpace(Join(cmd)[|Join(cmd)| - 1]) && ';' !in Join(cmd)
  {
    assert cmd[0] in cmd && SafeWord(cmd[0]);
    JoinSafe(cmd);
    assert cmd[0][0] in cmd[0];
  }

  lemma {:induction false} LineText(cmds: seq<seq<string>>)
    requires cmds != [] && SafeCommands(cmds)
    ensures LineOf(cmds) != "" && Tight(LineOf(cmds)) && LineOf(cmds)[0] != '#'
    decreases |cmds|
  {
    hide Join, IsSpace, SafeCommand;
    assert cmds[0] in cmds;
    CommandText(cmds[0]);
    if |cmds| > 1 {
      var rest := LineOf(cmds[1..]);
      LineText(cmds[1..]);
      assert LineOf(cmds)[|LineOf(cmds)| - 1] == rest[|rest| - 1];
    }
  }

  lemma PieceRuns(env: Env, ls: Listing, k: Kernel, cmd: seq<string>)
    requires Honest(env.lib) && SafeCommand(cmd)
    ensures RunPiece(env, ls, k, Join(cmd)) == Dispatch(env, ls, k, cmd)
  {
    hide Join, Dispatch;
    CommandText(cmd);
    TrimNothing(Join(cmd));
    assert env.lib.split(Join(cmd)) == Some(cmd);
  }

  /** A space at the front of a line changes nothing. */
  lemma SpaceInFront(env: Env, ls: Listing, k: Kernel, s: string)
    ensures RunPieces(env, ls, k, SplitOn(" " + s, ';')) == RunPieces(env, ls, k, SplitOn(s, ';'))
  {
    var ps, qs := SplitOn(s, ';'), SplitOn(" " + s, ';');
    assert (" " + s)[1..] == s;
    assert qs == [" " + ps[0]] + ps[1..] && (" " + ps[0])[1..] == ps[0];
    assert Trim(" " + ps[0]) == Trim(ps[0]);
    assert qs[1..] == ps[1..];
    assert RunPiece(env, ls, k, qs[0]) == RunPiece(env, ls, k, ps[0]);
  }

  lemma {:induction false} PiecesRunAll(env: Env, ls: Listing, k: Kernel, cmds: seq<seq<string>>)
    requires Honest(env.lib) && cmds != [] && SafeCommands(cmds) && [] !in cmds
    ensures RunPieces(env, ls, k, SplitOn(LineOf(cmds), ';')) == RunAll(env, ls, k, cmds)
    decreases |cmds|
  {
    hide Join, Dispatch, RunPiece, SafeCommand, Honest, SplitOn;
    assert cmds[0] in cmds;
    CommandText(cmds[0]);
    PieceRuns(env, ls, k, cmds[0]);
    var (k1, r) := Dispatch(env, ls, k, cmds[0]);
    if |cmds| == 1 {
      SplitNothing(Join(cmds[0]), ';');
      assert RunPieces(env, ls, k1, [Join(cmds[0])][1..]) == (k1, Ok);
      assert RunAll(env, ls, k1, cmds[1..]) == (k1, Ok);
    } else {
      var rest := LineOf(cmds[1..]);
      SplitFirst(Join(cmds[0]), " " + rest, ';');
      var ps := SplitOn(" " + rest, ';');
      assert ([Join(cmds[0])] + ps)[1..] == ps;
      SpaceInFront(env, ls, k1, rest);
      PiecesRunAll(env, ls, k1, cmds[1..]);
    }
  }

  /** One piece of a line, white space around its text: it is skipped if there is no text or no word in it, fails if
      it cannot be split, and else is dispatched. */
  lemma PieceExact(env: Env, ls: Listing, k: Kernel, before: string, text: string, behind: string)
    requires AllSpace(before) && Tight(text) && AllSpace(behind)
    ensures RunPiece(env, ls, k, before + text + behind)
         == if text == "" || env.lib.split(text) == Some([]) then (k, Ok)
            else if env.lib.split(text) == None then (k, Err(ParseError))
            else Dispatch(env, ls, k, env.lib.split(text).value)
  {
    hide Dispatch;
    TrimDrops(before, text, behind);
  }

  /** The pieces of a line in order, up to the first failure. */
  lemma {:induction false} PiecesInOrder(env: Env, ls: Listing, k: Kernel, pieces: seq<string>, more: seq<string>)
    ensures var (k1, r) := RunPieces(env, ls, k, pieces);
            RunPieces(env, ls, k, pieces + more) == if r != Ok then (k1, r) else RunPieces(env, ls, k1, more)
    ensures RunPieces(env, ls, k, []) == (k, Ok)
    ensures more != [] ==> RunPieces(env, ls, k, more[..1]) == RunPiece(env, ls, k, more[0])
    decreases |pieces|
  {
    hide RunPiece;
    if more != [] {
      assert more[..1][1..] == [];
    }
    if pieces == [] {
      assert pieces + more == more;
    } else {
      assert (pieces + more)[1..] == pieces[1..] + more;
      var (k1, r) := RunPiece(env, ls, k, pieces[0]);
      PiecesInOrder(env, ls, k1, pieces[1..], more);
    }
  }

  // ---- Lines and scripts ----

  /** A blank line, or one that starts with '#' behind white space. */
  ghost predicate Quiet(line: string) {
    AllSpace(line) || exists i :: HashAt(line, i)
  }

  predicate HashAt(line: string, i: int) {
    0 <= i < |line| && line[i] == '#' && AllSpace(line[..i])
  }

  /** The line is the commands with white space around them. */
  ghost predicate Surrounds(line: string, before: string, cmds: seq<seq<string>>, behind: string) {
    line == before + LineOf(cmds) + behind && AllSpace(before) && AllSpace(behind)
  }

  /** A line holds these commands. */
  ghost predicate Holds(line: string, cmds: seq<seq<string>>) {
    && SafeCommands(cmds) && [] !in cmds
    && if cmds == [] then Quiet(line) else exists before, behind :: Surrounds(line, before, cmds, behind)
  }

  lemma QuietRuns(env: Env, ls: Listing, k: Kernel, line: string)
    requires Quiet(line)
    ensures RunLine(env, ls, k, line) == (k, Ok)
  {
    if AllSpace(line) {
      TrimDrops(line, "", "");
      assert line + "" + "" == line;
    } else {
      var i :| HashAt(line, i);
      var s := line[i..];
      assert line == line[..i] + s;
      TrimStartDrops(line[..i], s);
      TrimEndKeepsFirst(s);
    }
  }

  /** Every command of a line is run, in order, up to the first failure. */
  lemma LineRunsAll(env: Env, ls: Listing, k: Kernel, line: string, cmds: seq<seq<string>>)
    requires Honest(env.lib) && Holds(line, cmds)
    ensures RunLine(env, ls, k, line) == RunAll(env, ls, k, cmds)
  {
    hide RunPieces, SplitOn, Trim, LineOf, Honest, AllSpace;
    if cmds == [] {
      QuietRuns(env, ls, k, line);
    } else {
      var before, behind :| Surrounds(line, before, cmds, behind);
      LineText(cmds);
      TrimDrops(before, LineOf(cmds), behind);
      PiecesRunAll(env, ls, k, cmds);
    }
  }

  function Flattened(groups: seq<seq<seq<string>>>): seq<seq<string>> {
    if groups == [] then [] else groups[0] + Flattened(groups[1..])
  }

  lemma {:induction false} FlattenedSafe(groups: seq<seq<seq<string>>>)
    requires forall cmds :: cmds in groups ==> [] !in cmds
    ensures [] !in Flattened(groups)
  {
    if groups != [] {
      FlattenedSafe(groups[1..]);
      assert groups[0] in groups;
    }
  }

  /** Each line holds its group of commands. */
  ghost predicate AllHold(lines: seq<string>, groups: seq<seq<seq<string>>>) {
    |lines| == |groups| && forall i :: 0 <= i < |lines| ==> Holds(lines[i], groups[i])
  }

  lemma GroupsSafe(lines: seq<string>, groups: seq<seq<seq<string>>>)
    requires AllHold(lines, groups)
    ensures [] !in Flattened(groups)
  {
    forall cmds | cmds in groups
      ensures [] !in cmds
    {
      var i :| 0 <= i < |groups| && groups[i] == cmds;
      assert Holds(lines[i], groups[i]);
    }
    FlattenedSafe(groups);
  }

  /** A script runs exactly the commands its lines hold, in order, up to the first failure. */
  lemma {:induction false} ScriptRunsAll(
      env: Env, ls: Listing, k: Kernel, lines: seq<string>, groups: seq<seq<seq<string>>>)
    requires Honest(env.lib) && AllHold(lines, groups) && [] !in Flattened(groups)
    ensures RunLines(env, ls, k, lines) == RunAll(env, ls, k, Flattened(groups))
    decreases |lines|
  {
    hide RunLine, Honest, Dispatch;
    if lines == [] {
    } else {
      assert Holds(lines[0], groups[0]);
      LineRunsAll(env, ls, k, lines[0], groups[0]);
      var (k1, r) := RunLine(env, ls, k, lines[0]);
      assert AllHold(lines[1..], groups[1..]);
      GroupsSafe(lines[1..], groups[1..]);
      RunAllAppend(env, ls, k, groups[0], Flattened(groups[1..]));
      if r == Ok {
        ScriptRunsAll(env, ls, k1, lines[1..], groups[1..]);
      }
    }
  }

  /** Two commands on a line. */
  lemma TwoCommands(env: Env, ls: Listing, k: Kernel, a: seq<string>, b: seq<string>)
    requires Honest(env.lib) && SafeCommand(a) && SafeCommand(b)
    ensures var (k1, r) := Dispatch(env, ls, k, a);
            RunLine(env, ls, k, Join(a) + "; " + Join(b)) == if r != Ok then (k1, r) else Dispatch(env, ls, k1, b)
  {
    hide Dispatch, RunLine, Join, Honest, SafeCommand;
    var cmds := [a, b];
    var line := Join(a) + "; " + Join(b);
    assert cmds[1..] == [b] && [b][1..] == [] && LineOf([b]) == Join(b);
    assert line == "" + (Join(a) + [';'] + (" " + Join(b))) + "";
    assert Surrounds(line, "", cmds, "");
    assert SafeCommands(cmds);
    NoneEmpty(cmds);
    LineRunsAll(env, ls, k, line, cmds);
    var (k1, _) := Dispatch(env, ls, k, a);
    var (k2, _) := Dispatch(env, ls, k1, b);
    assert RunAll(env, ls, k2, []) == (k2, Ok);
    assert RunAll(env, ls, k1, [b]) == Dispatch(env, ls, k1, b);
  }

  lemma NoneEmpty(cmds: seq<seq<string>>)
    requires SafeCommands(cmds)
    ensures [] !in cmds
  {
    forall cmd | cmd in cmds
      ensures cmd != []
    {
      assert SafeCommand(cmd);
    }
  }

  /** The words that change tables, and the commands they stand for; no other word changes anything. */
  lemma DispatchTable(env: Env, ls: Listing, k: Kernel, w: string, args: seq<string>)
    ensures var (k', r) := Dispatch(env, ls, k, [w] + args);
            && (w == "client" ==> (k', r) == ClientMode(k, CALM))
            && (w == "server" ==> (k', r) == ServerMode(k, args, CALM))
            && (w == "client-add" ==> (k', r) == ClientAdd(env, k, args, CALM))
            && (w == "client-del" ==> (k', r) == ClientDel(env, k, args, ls.egress(k), CALM))
            && (w == "server-add" ==> (k', r) == ServerAdd(env, k, args, CALM))
            && (w == "server-del" ==> (k', r) == ServerDel(env, k, args, CALM))
            && (w !in ["client", "server", "client-add", "client-del", "server-add", "server-del"] ==>
                  k' == k && (w in ["load", "unload", "status", "dump"] || r == Ok))
  {
    hide ClientMode, ServerMode, ClientAdd, ClientDel, ServerAdd, ServerDel;
    assert ([w] + args)[1..] == args;
  }

  // ---- What a dump lists ----

  lemma {:induction false} PeerLinesLast(env: Env, k: Kernel, dump: seq<EgressKey>, last: EgressKey)
    ensures PeerLines(env, k, dump + [last]) == PeerLines(env, k, dump) + PeerLines(env, k, [last])
    decreases |dump|
  {
    hide PeerLine;
    if dump == [] {
      assert dump + [last] == [last];
    } else {
      PeerLinesLast(env, k, dump[1..], last);
      assert (dump + [last])[1..] == dump[1..] + [last];
    }
  }

  /** The entries at these places of the listing are the ones with a port. */
  ghost predicate PlacesOfPorts(dump: seq<EgressKey>, ids: seq<int>) {
    Increasing(ids) && forall i :: i in ids <==> 0 <= i < |dump| && dump[i].port != 0
  }

  lemma PlacesGrow(dump: seq<EgressKey>, last: EgressKey, ids: seq<int>)
    requires PlacesOfPorts(dump, ids)
    ensures PlacesOfPorts(dump + [last], if last.port != 0 then ids + [|dump|] else ids)
  {
    assert forall j :: 0 <= j < |ids| ==> ids[j] in ids;
  }

  /** The lines are those of the entries at these places. */
  ghost predicate LinesOfPlaces(env: Env, k: Kernel, dump: seq<EgressKey>, ids: seq<int>, lines: seq<string>) {
    && |lines| == |ids|
    && forall j :: 0 <= j < |ids| ==>
         0 <= ids[j] < |dump| && dump[ids[j]] in k.egress
         && lines[j] == PeerLine(env, dump[ids[j]], k.egress[dump[ids[j]]])
  }

  lemma LinesGrow(env: Env, k: Kernel, dump: seq<EgressKey>, last: EgressKey, ids: seq<int>, lines: seq<string>)
    requires LinesOfPlaces(env, k, dump, ids, lines) && last in k.egress
    ensures LinesOfPlaces(env, k, dump + [last], ids, lines)
    ensures LinesOfPlaces(env, k, dump + [last], ids + [|dump|], lines + [PeerLine(env, last, k.egress[last])])
  {
    hide PeerLine;
  }

  lemma OneListed(env: Env, k: Kernel, key: EgressKey)
    requires key in k.egress
    ensures PeerLines(env, k, [key]) == if key.port != 0 then [PeerLine(env, key, k.egress[key])] else []
  {
    hide PeerLine, Swap16;
    Swap16Twice(key.port);
    assert [key][1..] == [];
  }

  lemma OneMoreListed(env: Env, k: Kernel, dump: seq<EgressKey>, last: EgressKey, ids: seq<int>)
    requires PlacesOfPorts(dump, ids) && LinesOfPlaces(env, k, dump, ids, PeerLines(env, k, dump)) && last in k.egress
    ensures var longer := if last.port != 0 then ids + [|dump|] else ids;
            && PlacesOfPorts(dump + [last], longer)
            && LinesOfPlaces(env, k, dump + [last], longer, PeerLines(env, k, dump + [last]))
  {
    hide PeerLine, PeerLines, PlacesOfPorts, LinesOfPlaces;
    var lines := PeerLines(env, k, dump);
    PlacesGrow(dump, last, ids);
    LinesGrow(env, k, dump, last, ids, lines);
    PeerLinesLast(env, k, dump, last);
    OneListed(env, k, last);
    assert lines + [] == lines;
  }

  lemma NoneListed(env: Env, k: Kernel)
    ensures PlacesOfPorts([], []) && LinesOfPlaces(env, k, [], [], PeerLines(env, k, []))
  {
  }

  /** The client's dump has a line for exactly the entries whose port is not 0, in the order of the listing. */
  lemma {:induction false} PeersListed(env: Env, k: Kernel, dump: seq<EgressKey>) returns (ids: seq<int>)
    requires forall i :: 0 <= i < |dump| ==> dump[i] in k.egress
    ensures PlacesOfPorts(dump, ids) && LinesOfPlaces(env, k, dump, ids, PeerLines(env, k, dump))
    decreases |dump|
  {
    hide *;
    if dump == [] {
      ids := [];
      NoneListed(env, k);
    } else {
      var n := |dump| - 1;
      var front, last := dump[..n], dump[n];
      ids := PeersListed(env, k, front);
      OneMoreListed(env, k, front, last, ids);
      assert dump == front + [last];
      if last.port != 0 {
        ids := ids + [n];
      }
    }
  }

  /** The server's dump has a line for every user, in the order of the listing. */
  lemma {:induction false} UsersListed(env: Env, k: Kernel, dump: seq<u8>)
    requires forall i :: 0 <= i < |dump| ==> dump[i] in k.users
    ensures |UserLines(env, k, dump)| == |dump|
    ensures forall i :: 0 <= i < |dump| ==>
              dump[i] in k.users && UserLines(env, k, dump)[i] == UserLine(env, dump[i], k.users[dump[i]])
    decreases |dump|
  {
    hide UserLine;
    if dump != [] {
      UsersListed(env, k, dump[1..]);
    }
  }
}
