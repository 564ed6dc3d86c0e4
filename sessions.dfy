/**
 * One client session of the server (toolbox/metaSMT-server/connection.cpp,
 * new_connection): solver selection, process setup, the broadcast/gather
 * command loop with its consensus reduction, and the `exit` cleanup.
 *
 * The client is the string of bytes it sends; the session's replies are the
 * string it writes back.  Each selected solver is a record: its backend kind,
 * its process id, the bytes the session has written to it and the bytes it
 * has produced that the session has not read yet.  The OS is a pair of
 * oracles: `spawn(k)` is what initPipes/fork do for the k-th solver of the
 * list, and `childOutput(k)` is everything the k-th child ever writes back.
 * kill and waitpid calls are recorded in a log.
 */
module Sessions {
  import opened Wrappers
  import opened Decimal
  import opened Framing

  const Catalogue: string := "0 z3; 1 picosat; 2 boolector\n"
  const ReplyOk: string := "OK\n"
  const ReplyUnsupported: string := "FAIL unsupported solver\n"
  const ReplyPipeError: string := "Could not create pipe for IPC.\n"
  const ReplyForkError: string := "Could not fork new process.\n"
  const ReplyInconsistent: string := "FAIL inconsistent solver behavior\n"
  const SIGTERM: int := 15

  datatype Worker = Worker(kind: nat, pid: int, toSolver: string, fromSolver: string)

  datatype SysCall = Kill(pid: int, signal: int) | WaitPid(pid: int)

  /** What setting up one solver does: initPipes fails, fork fails, or the parent gets the child's pid. */
  datatype Spawn = PipeFails | ForkFails | Forked(pid: int)

  /**
   * How a session ends: `exit`; the client stream ends (next_line throws);
   * setup fails; a solver never completes its answer line (the read blocks
   * forever); or a command arrives with no solver selected (answers[0] on an
   * empty vector, undefined behaviour, beyond which the model says nothing).
   */
  datatype Outcome = Exited | ClientGone | SetupFailed | Blocked | Undefined

  datatype Session = Session(output: string, workers: seq<Worker>, log: seq<SysCall>, outcome: Outcome)

  // ---------------------------------------------------------------- selection

  /** `ended` is the line that ended selection and the input after it, or None when the client stream ended. */
  datatype Selection = Selection(kinds: seq<nat>, replies: string, ended: Option<Split>)

  /**
   * The selection loop from the state (kinds, replies) on: a line that reads as
   * an unsigned number 0..2 appends that solver and answers OK, any other number
   * answers FAIL unsupported solver, and a line that is no number ends selection.
   */
  function Select(input: string, kinds: seq<nat>, replies: string): (r: Selection)
    ensures kinds <= r.kinds && replies <= r.replies
    ensures (forall i :: 0 <= i < |kinds| ==> kinds[i] <= 2) ==> forall i :: 0 <= i < |r.kinds| ==> r.kinds[i] <= 2
    ensures r.ended.Some? ==> ParseUnsigned(r.ended.value.line).None?
    ensures r.ended.Some? ==> |r.ended.value.rest| < |input|
    decreases |input|
  {
    match NextLine(input)
    case None => Selection(kinds, replies, None)
    case Some(split) =>
      match ParseUnsigned(split.line)
      case None => Selection(kinds, replies, Some(split))
      case Some(v) =>
        if v <= 2 then Select(split.rest, kinds + [v], replies + ReplyOk)
        else Select(split.rest, kinds, replies + ReplyUnsupported)
  }

  /** The selection loop of new_connection. */
  method SelectSolvers(input: string) returns (sel: Selection)
    ensures sel == Select(input, [], [])
  {
    var kinds: seq<nat> := [];
    var replies := "";
    var rest := input;
    while true
      invariant Select(rest, kinds, replies) == Select(input, [], [])
      decreases |rest|
    {
      var ret := ReplyOk;
      var next := NextLine(rest);
      if next.None? {
        return Selection(kinds, replies, None);
      }
      var solver := ParseUnsigned(next.value.line);
      if solver.None? {
        return Selection(kinds, replies, next);
      }
      if solver.value <= 2 {
        kinds := kinds + [solver.value];
      } else {
        ret := ReplyUnsupported;
      }
      replies := replies + ret;
      rest := next.value.rest;
    }
  }

  /** One selection line: a line reading 0, 1 or 2 once trimmed appends exactly that solver at the end and answers OK. */
  lemma SelectAccepts(line: string, rest: string, kinds: seq<nat>, replies: string)
    requires '\n' !in line
    requires ParseUnsigned(TrimRight(line)).Some? && ParseUnsigned(TrimRight(line)).value <= 2
    ensures Select(Frame(line) + rest, kinds, replies)
         == Select(rest, kinds + [ParseUnsigned(TrimRight(line)).value], replies + ReplyOk)
  {
    WriteThenRead(line, rest);
  }

  /** A number out of range answers FAIL unsupported solver and leaves the list as it was. */
  lemma SelectRejects(line: string, rest: string, kinds: seq<nat>, replies: string)
    requires '\n' !in line
    requires ParseUnsigned(TrimRight(line)).Some? && ParseUnsigned(TrimRight(line)).value > 2
    ensures Select(Frame(line) + rest, kinds, replies) == Select(rest, kinds, replies + ReplyUnsupported)
  {
    WriteThenRead(line, rest);
  }

  /** A line that is not a number once trimmed ends selection with no reply; its trimmed text is kept as the first command. */
  lemma SelectEnds(line: string, rest: string, kinds: seq<nat>, replies: string)
    requires '\n' !in line
    requires ParseUnsigned(TrimRight(line)).None?
    ensures Select(Frame(line) + rest, kinds, replies) == Selection(kinds, replies, Some(Split(TrimRight(line), rest)))
  {
    WriteThenRead(line, rest);
  }

  // -------------------------------------------------------------------- setup

  /** Index of the first solver whose setup fails, or n when the first n all succeed. */
  function FirstFailure(spawn: nat -> Spawn, n: nat): (j: nat)
    ensures j <= n
    ensures forall k :: 0 <= k < j ==> spawn(k).Forked?
    ensures j < n ==> !spawn(j).Forked?
  {
    if n == 0 then 0
    else
      var j := FirstFailure(spawn, n - 1);
      if j < n - 1 then j else if spawn(n - 1).Forked? then n else n - 1
  }

  datatype Setup = Ready(workers: seq<Worker>) | Failed(workers: seq<Worker>, message: string)

  /**
   * The setup loop: solvers are set up in list order; the first failure sends its
   * error line and ends the session, and the solvers set up before it keep their
   * pids (they are not killed).
   */
  function SetupSpec(kinds: seq<nat>, spawn: nat -> Spawn, childOutput: nat -> string): (r: Setup)
    ensures |r.workers| <= |kinds|
    ensures r.Ready? <==> forall k :: 0 <= k < |kinds| ==> spawn(k).Forked?
    ensures r.Ready? ==> |r.workers| == |kinds|
    ensures r.Failed? ==> |r.workers| < |kinds| && !spawn(|r.workers|).Forked?
    ensures r.Failed? ==> r.message == if spawn(|r.workers|).PipeFails? then ReplyPipeError else ReplyForkError
    ensures forall k :: 0 <= k < |r.workers| ==>
              spawn(k).Forked? && r.workers[k] == Worker(kinds[k], spawn(k).pid, [], childOutput(k))
  {
    var j := FirstFailure(spawn, |kinds|);
    var ws := seq(j, k requires 0 <= k < j => Worker(kinds[k], spawn(k).pid, [], childOutput(k)));
    if j == |kinds| then Ready(ws)
    else Failed(ws, if spawn(j).PipeFails? then ReplyPipeError else ReplyForkError)
  }

  /** The setup loop of new_connection (the parent's side of fork). */
  method SpawnSolvers(kinds: seq<nat>, spawn: nat -> Spawn, childOutput: nat -> string) returns (r: Setup)
    ensures r == SetupSpec(kinds, spawn, childOutput)
  {
    var ws: seq<Worker> := [];
    var i := 0;
    while i < |kinds|
      invariant 0 <= i <= |kinds| && |ws| == i
      invariant forall k :: 0 <= k < i ==>
                  spawn(k).Forked? && ws[k] == Worker(kinds[k], spawn(k).pid, [], childOutput(k))
    {
      var s := spawn(i);
      if s.PipeFails? {
        return Failed(ws, ReplyPipeError);
      }
      if s.ForkFails? {
        return Failed(ws, ReplyForkError);
      }
      ws := ws + [Worker(kinds[i], s.pid, [], childOutput(i))];
      i := i + 1;
    }
    return Ready(ws);
  }

  // ------------------------------------------------------------- command loop

  /** Every solver's pipe gets the command and one newline; nothing else changes. */
  function Broadcast(ws: seq<Worker>, cmd: string): (r: seq<Worker>)
    ensures |r| == |ws|
    ensures forall k :: 0 <= k < |ws| ==> ws[k].toSolver < r[k].toSolver && r[k].toSolver[|ws[k].toSolver|..] == Frame(cmd)
    ensures forall k :: 0 <= k < |ws| ==> r[k].(toSolver := ws[k].toSolver) == ws[k]
  {
    seq(|ws|, k requires 0 <= k < |ws| => ws[k].(toSolver := ws[k].toSolver + Frame(cmd)))
  }

  /** The broadcast loop: parent_write_command(str) to every solver, in list order. */
  method BroadcastCommand(ws: seq<Worker>, cmd: string) returns (r: seq<Worker>)
    ensures |r| == |ws|
    ensures forall k :: 0 <= k < |ws| ==>
              r[k].kind == ws[k].kind && r[k].pid == ws[k].pid && r[k].fromSolver == ws[k].fromSolver
    ensures forall k :: 0 <= k < |ws| ==> r[k].toSolver == ws[k].toSolver + Frame(cmd)
    ensures r == Broadcast(ws, cmd)
  {
    r := ws;
    var i := 0;
    while i < |ws|
      invariant 0 <= i <= |ws| && |r| == |ws|
      invariant forall k :: 0 <= k < i ==> r[k] == ws[k].(toSolver := ws[k].toSolver + Frame(cmd))
      invariant forall k :: i <= k < |ws| ==> r[k] == ws[k]
    {
      r := r[i := r[i].(toSolver := r[i].toSolver + Frame(cmd))];
      i := i + 1;
    }
  }

  /** Every solver has a complete answer line waiting. */
  predicate AllAnswered(ws: seq<Worker>) {
    forall k :: 0 <= k < |ws| ==> '\n' in ws[k].fromSolver
  }

  /** The answer line of each solver, in list order. */
  function Answers(ws: seq<Worker>): seq<string>
    requires AllAnswered(ws)
  {
    seq(|ws|, k requires 0 <= k < |ws| => Line(ws[k].fromSolver))
  }

  /** The solvers after their answer lines have been read. */
  function Consume(ws: seq<Worker>): seq<Worker>
    requires AllAnswered(ws)
  {
    seq(|ws|, k requires 0 <= k < |ws| => ws[k].(fromSolver := AfterLine(ws[k].fromSolver)))
  }

  /**
   * The gather loop: answers[n++] = parent_read_command(), one per solver in list
   * order.  `ok` is false when some solver's output holds no complete line, where
   * the real read blocks forever.
   */
  method GatherAnswers(ws: seq<Worker>) returns (ok: bool, answers: seq<string>, after: seq<Worker>)
    ensures ok <==> AllAnswered(ws)
    ensures ok ==> |answers| == |ws| && forall k :: 0 <= k < |ws| ==> answers[k] == Line(ws[k].fromSolver)
    ensures ok ==> answers == Answers(ws) && after == Consume(ws)
  {
    answers, after := [], [];
    var i := 0;
    while i < |ws|
      invariant 0 <= i <= |ws| && |answers| == i && |after| == i
      invariant forall k :: 0 <= k < i ==> '\n' in ws[k].fromSolver
      invariant forall k :: 0 <= k < i ==> answers[k] == Line(ws[k].fromSolver)
      invariant forall k :: 0 <= k < i ==> after[k] == ws[k].(fromSolver := AfterLine(ws[k].fromSolver))
    {
      if '\n' !in ws[i].fromSolver {
        return false, answers, after;
      }
      var line, rest := ReadCommand(ws[i].fromSolver);
      answers := answers + [line];
      after := after + [ws[i].(fromSolver := rest)];
      i := i + 1;
    }
    ok := true;
  }

  predicate AllEqual(answers: seq<string>) {
    forall i, j :: 0 <= i < |answers| && 0 <= j < |answers| ==> answers[i] == answers[j]
  }

  predicate AdjacentEqual(answers: seq<string>) {
    forall i :: 0 <= i < |answers| - 1 ==> answers[i] == answers[i + 1]
  }

  lemma {:induction false} AdjacentReachesFirst(answers: seq<string>, i: nat)
    requires AdjacentEqual(answers) && i < |answers|
    ensures answers[i] == answers[0]
  {
    if i > 0 {
      AdjacentReachesFirst(answers, i - 1);
    }
  }

  /** The source's adjacent-pair test is the same as "all answers are equal". */
  lemma AdjacentEqualIffAllEqual(answers: seq<string>)
    ensures AdjacentEqual(answers) <==> AllEqual(answers)
  {
    if AdjacentEqual(answers) {
      forall i | 0 <= i < |answers| ensures answers[i] == answers[0] {
        AdjacentReachesFirst(answers, i);
      }
    }
  }

  /** The reply for a set of answers: the agreed answer as one line, or the inconsistency failure. */
  function Agreement(answers: seq<string>): (r: string)
    requires |answers| > 0
    ensures AllEqual(answers) ==> forall k :: 0 <= k < |answers| ==> r == Frame(answers[k])
    ensures !AllEqual(answers) ==> r == ReplyInconsistent
    ensures |r| > 0 && r[|r| - 1] == '\n'
  {
    if AllEqual(answers) then Frame(answers[0]) else ReplyInconsistent
  }

  /** The consensus loop: start from answers[0] and fail at the first unequal adjacent pair. */
  method Consensus(answers: seq<string>) returns (ret: string)
    requires |answers| > 0
    ensures ret == (if AdjacentEqual(answers) then Frame(answers[0]) else ReplyInconsistent)
    ensures ret == (if AllEqual(answers) then Frame(answers[0]) else ReplyInconsistent)
    ensures ret == Agreement(answers)
  {
    ret := answers[0] + "\n";
    var n := 0;
    while n < |answers| - 1
      invariant 0 <= n <= |answers| - 1
      invariant forall i :: 0 <= i < n ==> answers[i] == answers[i + 1]
      invariant ret == Frame(answers[0])
    {
      if answers[n] != answers[n + 1] {
        ret := ReplyInconsistent;
        break;
      }
      n := n + 1;
    }
    AdjacentEqualIffAllEqual(answers);
  }

  /** With newline-free answers the reply is exactly one line. */
  lemma ReplyIsOneLine(answers: seq<string>)
    requires |answers| > 0 && forall k :: 0 <= k < |answers| ==> '\n' !in answers[k]
    ensures var r := Agreement(answers); |r| > 0 && r[|r| - 1] == '\n' && '\n' !in r[..|r| - 1]
  {
    var r := Agreement(answers);
    if AllEqual(answers) {
      assert r[..|r| - 1] == answers[0];
    } else {
      assert r[..|r| - 1] == "FAIL inconsistent solver behavior";
    }
  }

  /** kill(pid, SIGTERM) then waitpid(pid), for each solver in list order. */
  function KillAll(ws: seq<Worker>): (log: seq<SysCall>)
    ensures |log| == 2 * |ws|
    ensures forall k :: 0 <= k < |ws| ==> log[2 * k] == Kill(ws[k].pid, SIGTERM) && log[2 * k + 1] == WaitPid(ws[k].pid)
  {
    if ws == [] then [] else KillAll(ws[..|ws| - 1]) + [Kill(ws[|ws| - 1].pid, SIGTERM), WaitPid(ws[|ws| - 1].pid)]
  }

  /** The `exit` loop of new_connection. */
  method KillSolvers(ws: seq<Worker>) returns (log: seq<SysCall>)
    ensures log == KillAll(ws)
  {
    log := [];
    var i := 0;
    while i < |ws|
      invariant 0 <= i <= |ws| && log == KillAll(ws[..i])
    {
      assert ws[..i + 1][..i] == ws[..i];
      log := log + [Kill(ws[i].pid, SIGTERM), WaitPid(ws[i].pid)];
      i := i + 1;
    }
    assert ws[..|ws|] == ws;
  }

  /**
   * The command loop from command `cmd` on, with the client bytes `input` still
   * unread, solvers `ws` and replies `out` written so far.
   */
  function Commands(cmd: string, input: string, ws: seq<Worker>, out: string): (r: Session)
    ensures out <= r.output
    decreases |input|
  {
    if cmd == "exit" then Session(out, ws, KillAll(ws), Exited)
    else if |ws| == 0 then Session(out, ws, [], Undefined)
    else
      var sent := Broadcast(ws, cmd);
      if !AllAnswered(sent) then Session(out, sent, [], Blocked)
      else
        var out' := out + Agreement(Answers(sent));
        match NextLine(input)
        case None => Session(out', Consume(sent), [], ClientGone)
        case Some(split) => Commands(split.line, split.rest, Consume(sent), out')
  }

  /** The command loop of new_connection. */
  method CommandLoop(first: string, input: string, workers: seq<Worker>, out0: string) returns (s: Session)
    ensures s == Commands(first, input, workers, out0)
  {
    var str, rest, ws, out := first, input, workers, out0;
    while true
      invariant Commands(str, rest, ws, out) == Commands(first, input, workers, out0)
      decreases |rest|
    {
      if str == "exit" {
        var log := KillSolvers(ws);
        return Session(out, ws, log, Exited);
      }
      if |ws| == 0 {
        return Session(out, ws, [], Undefined);
      }
      var sent := BroadcastCommand(ws, str);
      var ok, answers, after := GatherAnswers(sent);
      if !ok {
        return Session(out, sent, [], Blocked);
      }
      var ret := Consensus(answers);
      out := out + ret;
      ws := after;
      var next := NextLine(rest);
      if next.None? {
        return Session(out, ws, [], ClientGone);
      }
      str, rest := next.value.line, next.value.rest;
    }
  }

  // ------------------------------------------------------------ whole session

  /** new_connection: catalogue, selection, setup, then the command loop from the line that ended selection. */
  function Run(input: string, spawn: nat -> Spawn, childOutput: nat -> string): (r: Session)
    ensures Catalogue <= r.output
  {
    var sel := Select(input, [], []);
    match sel.ended
    case None => Session(Catalogue + sel.replies, [], [], ClientGone)
    case Some(split) =>
      match SetupSpec(sel.kinds, spawn, childOutput)
      case Failed(ws, message) => Session(Catalogue + sel.replies + message, ws, [], SetupFailed)
      case Ready(ws) => Commands(split.line, split.rest, ws, Catalogue + sel.replies)
  }

  method NewConnection(input: string, spawn: nat -> Spawn, childOutput: nat -> string) returns (s: Session)
    ensures s == Run(input, spawn, childOutput)
  {
    var out := Catalogue;
    var sel := SelectSolvers(input);
    if sel.ended.None? {
      return Session(out + sel.replies, [], [], ClientGone);
    }
    out := out + sel.replies;
    var setup := SpawnSolvers(sel.kinds, spawn, childOutput);
    if setup.Failed? {
      return Session(out + setup.message, setup.workers, [], SetupFailed);
    }
    s := CommandLoop(sel.ended.value.line, sel.ended.value.rest, setup.workers, out);
  }
}
