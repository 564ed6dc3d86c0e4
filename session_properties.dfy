/**
 * Properties of whole sessions (toolbox/metaSMT-server/connection.cpp,
 * new_connection), stated about the specification functions of module Sessions
 * that the session's methods are proved equal to.
 */
module SessionProperties {
  import opened Wrappers
  import opened Decimal
  import opened Framing
  import opened Sessions

  /** One round of the loop keeps every solver's kind and pid and appends the framed command to each. */
  lemma RoundKeepsSolvers(ws: seq<Worker>, cmd: string)
    requires AllAnswered(Broadcast(ws, cmd))
    ensures var c := Consume(Broadcast(ws, cmd));
      && |c| == |ws|
      && forall k :: 0 <= k < |ws| ==>
           c[k].kind == ws[k].kind && c[k].pid == ws[k].pid && c[k].toSolver == ws[k].toSolver + Frame(cmd)
  {
  }

  /** The command loop never adds, drops or reorders solvers and never changes a kind or pid. */
  lemma {:induction false} CommandsKeepsSolvers(cmd: string, input: string, ws: seq<Worker>, out: string)
    ensures var s := Commands(cmd, input, ws, out);
      && |s.workers| == |ws|
      && forall k :: 0 <= k < |ws| ==> s.workers[k].kind == ws[k].kind && s.workers[k].pid == ws[k].pid
    decreases |input|
  {
    if cmd != "exit" && |ws| > 0 {
      var sent := Broadcast(ws, cmd);
      if AllAnswered(sent) && '\n' in input {
        RoundKeepsSolvers(ws, cmd);
        CommandsKeepsSolvers(Line(input), AfterLine(input), Consume(sent), out + Agreement(Answers(sent)));
      }
    }
  }

  /** `after` extends every solver's sent bytes of `before` by one and the same suffix. */
  predicate SentAlike(before: seq<Worker>, after: seq<Worker>) {
    && |before| == |after| && |before| > 0
    && (forall k :: 0 <= k < |before| ==> before[k].toSolver <= after[k].toSolver)
    && forall k :: 0 <= k < |before| ==>
         after[k].toSolver[|before[k].toSolver|..] == after[0].toSolver[|before[0].toSolver|..]
  }

  lemma SentAlikeExtend(ws: seq<Worker>, c: seq<Worker>, s: seq<Worker>, d: string)
    requires |c| == |ws| > 0
    requires forall k :: 0 <= k < |ws| ==> c[k].toSolver == ws[k].toSolver + d
    requires SentAlike(c, s)
    ensures SentAlike(ws, s)
  {
    forall k | 0 <= k < |ws|
      ensures ws[k].toSolver <= s[k].toSolver
      ensures s[k].toSolver[|ws[k].toSolver|..] == d + s[k].toSolver[|c[k].toSolver|..]
    {
      var t := s[k].toSolver;
      assert t == c[k].toSolver + t[|c[k].toSolver|..];
      assert t == ws[k].toSolver + (d + t[|c[k].toSolver|..]);
    }
  }

  /**
   * Every solver receives the same bytes during the command loop, appended to
   * what it had been sent before.
   */
  lemma {:induction false} CommandsSendsAlike(cmd: string, input: string, ws: seq<Worker>, out: string)
    requires |ws| > 0
    ensures SentAlike(ws, Commands(cmd, input, ws, out).workers)
    decreases |input|
  {
    if cmd != "exit" {
      var sent := Broadcast(ws, cmd);
      if !AllAnswered(sent) {
        assert Commands(cmd, input, ws, out).workers == sent;
      } else if '\n' !in input {
        assert Commands(cmd, input, ws, out).workers == Consume(sent);
      } else {
        var c := Consume(sent);
        var out' := out + Agreement(Answers(sent));
        RoundKeepsSolvers(ws, cmd);
        CommandsSendsAlike(Line(input), AfterLine(input), c, out');
        assert Commands(cmd, input, ws, out) == Commands(Line(input), AfterLine(input), c, out');
        SentAlikeExtend(ws, c, Commands(Line(input), AfterLine(input), c, out').workers, Frame(cmd));
      }
    }
  }

  /**
   * Nothing is signalled in the command loop except by `exit`, which signals the
   * final list of solvers; the loop only appends to the replies.
   */
  lemma {:induction false} CommandsSignalsOnlyOnExit(cmd: string, input: string, ws: seq<Worker>, out: string)
    ensures var s := Commands(cmd, input, ws, out);
      && s.log == (if s.outcome == Exited then KillAll(s.workers) else [])
      && s.outcome != SetupFailed
      && out <= s.output
    decreases |input|
  {
    if cmd != "exit" && |ws| > 0 {
      var sent := Broadcast(ws, cmd);
      if AllAnswered(sent) && '\n' in input {
        CommandsSignalsOnlyOnExit(Line(input), AfterLine(input), Consume(sent), out + Agreement(Answers(sent)));
      }
    }
  }

  /**
   * Cleanup of a whole session: only a session that ends with `exit` signals
   * anything, and then it sends SIGTERM to and waits for exactly the solvers that
   * were selected and forked, once each, in selection order.  On setup failure
   * and on a closed client stream no solver is signalled.
   */
  lemma SessionCleanup(input: string, spawn: nat -> Spawn, childOutput: nat -> string)
    ensures var s := Run(input, spawn, childOutput);
            var sel := Select(input, [], []);
      && (s.outcome == Exited ==>
            && sel.ended.Some?
            && |s.workers| == |sel.kinds|
            && s.log == KillAll(s.workers)
            && forall k :: 0 <= k < |s.workers| ==>
                 spawn(k).Forked? && s.workers[k].pid == spawn(k).pid && s.workers[k].kind == sel.kinds[k])
      && (s.outcome != Exited ==> s.log == [])
      && Catalogue <= s.output
  {
    var sel := Select(input, [], []);
    if sel.ended.Some? {
      var setup := SetupSpec(sel.kinds, spawn, childOutput);
      if setup.Ready? {
        var split := sel.ended.value;
        LoopCleanup(split.line, split.rest, sel.kinds, setup.workers, Catalogue + sel.replies, spawn);
        assert Run(input, spawn, childOutput) == Commands(split.line, split.rest, setup.workers, Catalogue + sel.replies);
      }
    }
  }

  /** The command-loop half of SessionCleanup, for solvers that were all forked. */
  lemma LoopCleanup(cmd: string, input: string, kinds: seq<nat>, ws: seq<Worker>, out: string, spawn: nat -> Spawn)
    requires |ws| == |kinds|
    requires forall k :: 0 <= k < |ws| ==> spawn(k).Forked? && ws[k].pid == spawn(k).pid && ws[k].kind == kinds[k]
    ensures var s := Commands(cmd, input, ws, out);
      && (s.outcome == Exited ==>
            && |s.workers| == |kinds|
            && s.log == KillAll(s.workers)
            && forall k :: 0 <= k < |s.workers| ==>
                 spawn(k).Forked? && s.workers[k].pid == spawn(k).pid && s.workers[k].kind == kinds[k])
      && (s.outcome != Exited ==> s.log == [])
  {
    CommandsKeepsSolvers(cmd, input, ws, out);
    CommandsSignalsOnlyOnExit(cmd, input, ws, out);
  }

  /**
   * One step of the command loop: a command other than `exit` is written to every
   * solver, one answer is read from each in list order, exactly one reply line is
   * written, and then the next client line is read as the next command.
   */
  lemma CommandStep(cmd: string, input: string, ws: seq<Worker>, out: string)
    requires cmd != "exit" && |ws| > 0
    requires AllAnswered(Broadcast(ws, cmd)) && '\n' in input
    ensures var sent := Broadcast(ws, cmd);
            var reply := Agreement(Answers(sent));
      && |reply| > 0 && reply[|reply| - 1] == '\n' && '\n' !in reply[..|reply| - 1]
      && Commands(cmd, input, ws, out)
         == Commands(Line(input), AfterLine(input), Consume(sent), out + reply)
  {
    var sent := Broadcast(ws, cmd);
    ReplyIsOneLine(Answers(sent));
  }

  /** The line that ended selection is the first command: `exit` there kills the solvers just forked. */
  lemma ExitEndingSelection(rest: string, kinds: seq<nat>, spawn: nat -> Spawn, childOutput: nat -> string, input: string)
    requires Select(input, [], []).ended == Some(Split("exit", rest))
    requires Select(input, [], []).kinds == kinds
    requires forall k :: 0 <= k < |kinds| ==> spawn(k).Forked?
    ensures var s := Run(input, spawn, childOutput);
      && s.outcome == Exited
      && |s.workers| == |kinds|
      && s.log == KillAll(s.workers)
      && s.output == Catalogue + Select(input, [], []).replies
  {
  }

  lemma SelectExitLine()
    ensures Select(Frame("exit"), [0], ReplyOk) == Selection([0], ReplyOk, Some(Split("exit", [])))
  {
    assert Frame("exit") == Frame("exit") + [];
    assert !IsDigit("exit"[0]);
    TrimRightNoTrailing("exit");
    SelectEnds("exit", [], [0], ReplyOk);
  }

  lemma SelectZeroLine(rest: string)
    ensures Select(Frame("0") + rest, [], []) == Select(rest, [0], ReplyOk)
  {
    assert ParseUnsigned("0") == Some(0) by {
      assert AllDigits("0");
      assert DigitsValue("0") == 0 by { assert "0"[..0] == []; }
    }
    TrimRightNoTrailing("0");
    SelectAccepts("0", rest, [], []);
    assert [] + [0] == [0];
    assert [] + ReplyOk == ReplyOk;
  }

  lemma SelectZeroThenExit()
    ensures Select(Frame("0") + Frame("exit"), [], []) == Selection([0], ReplyOk, Some(Split("exit", [])))
  {
    SelectZeroLine(Frame("exit"));
    SelectExitLine();
  }

  lemma SetupOne(spawn: nat -> Spawn, childOutput: nat -> string)
    requires spawn(0).Forked?
    ensures SetupSpec([0], spawn, childOutput) == Ready([Worker(0, spawn(0).pid, [], childOutput(0))])
  {
    var setup := SetupSpec([0], spawn, childOutput);
    assert setup.Ready? && |setup.workers| == 1;
  }

  /** A client that selects z3 and leaves at once: one child is forked, then terminated and reaped. */
  lemma SelectThenExit(spawn: nat -> Spawn, childOutput: nat -> string)
    requires spawn(0).Forked?
    ensures Run(Frame("0") + Frame("exit"), spawn, childOutput)
         == Session(Catalogue + ReplyOk, [Worker(0, spawn(0).pid, [], childOutput(0))],
                    [Kill(spawn(0).pid, SIGTERM), WaitPid(spawn(0).pid)], Exited)
  {
    var w := Worker(0, spawn(0).pid, [], childOutput(0));
    SelectZeroThenExit();
    SetupOne(spawn, childOutput);
    assert KillAll([w]) == [Kill(spawn(0).pid, SIGTERM), WaitPid(spawn(0).pid)] by {
      assert [w][..0] == [];
    }
  }
}
