/**
 * SolverProcess (toolbox/metaSMT-server/solver.cpp and the class declaration in
 * solver.hpp): one backend child process as the parent and the child see it.
 *
 * The two pipes are modelled by the bytes written to them and not yet read:
 * `toChild` is fd_p2c (parent writes, child reads) and `fromChild` is fd_c2p
 * (child writes, parent reads).  `partial` is the field p2c_read_command.
 */
module Processes {
  import opened Framing

  /**
   * What one non-blocking `read(fd, buf, 1)` on the read end of a pipe returns:
   * 1 when a byte is ready, -1 (EAGAIN) when the pipe is empty but a writer still
   * holds it open, 0 at end of file.
   */
  function ReadLength(pending: string, writerOpen: bool): (len: int)
    ensures len == 1 <==> |pending| > 0
    ensures len == -1 <==> |pending| == 0 && writerOpen
    ensures len == 0 <==> |pending| == 0 && !writerOpen
  {
    if |pending| > 0 then 1 else if writerOpen then -1 else 0
  }

  /** The answer parent_read_command_available gives, as written: `len != 0 || last byte of the buffer is '\n'`. */
  function AvailableAsWritten(len: int, partial: string): (r: bool)
    requires |partial| > 0
  {
    len != 0 || partial[|partial| - 1] == '\n'
  }

  /**
   * As written, an empty pipe whose writer is still open (read fails with EAGAIN)
   * is reported as "a command is available" whatever the buffer holds.
   */
  lemma AvailableAsWrittenOnEmptyPipe(partial: string)
    requires |partial| > 0
    ensures AvailableAsWritten(ReadLength([], true), partial)
  {
  }

  /** A concrete instance: buffer "x", nothing in the pipe, no complete line anywhere, yet "available". */
  lemma AvailableAsWrittenCounterexample()
    ensures '\n' !in "x" && AvailableAsWritten(ReadLength([], true), "x")
  {
  }

  /** The intended reading: a complete command is available iff the buffer ends its line. */
  predicate LineBuffered(partial: string) {
    |partial| > 0 && partial[|partial| - 1] == '\n'
  }

  /** The buffer holds at most one newline, as its last byte: it never spans a line boundary. */
  predicate BufferWellFormed(partial: string) {
    forall i :: 0 <= i < |partial| - 1 ==> partial[i] != '\n'
  }

  class SolverProcess {
    var solverType: int
    var pid: int
    var toChild: string
    var fromChild: string
    var fromChildFlags: bv32
    var writerOpen: bool
    var partial: string

    /** SolverProcess(solver_type): records the backend kind; the buffer starts empty. */
    constructor (solverType: int)
      ensures this.solverType == solverType
      ensures partial == [] && toChild == [] && fromChild == []
      ensures fromChildFlags & O_NONBLOCK == 0 && writerOpen
    {
      this.solverType := solverType;
      pid := 0;
      toChild := [];
      fromChild := [];
      fromChildFlags := 0;
      writerOpen := true;
      partial := [];
    }

    /** child_read_command: read one framed command from fd_p2c. */
    method ChildReadCommand() returns (s: string)
      requires '\n' in toChild
      modifies this`toChild
      ensures s == Line(old(toChild)) && toChild == AfterLine(old(toChild))
    {
      var rest;
      s, rest := ReadCommand(toChild);
      toChild := rest;
    }

    /** child_write_command: write s and one newline to fd_c2p. */
    method ChildWriteCommand(s: string)
      modifies this`fromChild
      ensures fromChild == old(fromChild) + Frame(s)
    {
      fromChild := fromChild + Frame(s);
    }

    /** parent_write_command: write s and one newline to fd_p2c. */
    method ParentWriteCommand(s: string)
      modifies this`toChild
      ensures toChild == old(toChild) + Frame(s)
    {
      toChild := toChild + Frame(s);
    }

    /**
     * parent_read_command: if the buffer already ends its line, return it trimmed
     * without touching the pipe; otherwise prepend it to the next line read from
     * fd_c2p.  Either way the buffer is emptied.  The buffer's last byte is read
     * unconditionally, so it must not be empty.
     */
    method ParentReadCommand() returns (r: string)
      requires |partial| > 0
      requires partial[|partial| - 1] != '\n' ==> '\n' in fromChild
      modifies this`partial, this`fromChild
      ensures partial == []
      ensures old(partial[|partial| - 1]) == '\n' ==>
                r == TrimRight(old(partial)) && fromChild == old(fromChild)
      ensures old(partial[|partial| - 1]) != '\n' ==>
                r == old(partial) + Line(old(fromChild)) && fromChild == AfterLine(old(fromChild))
    {
      if partial[|partial| - 1] == '\n' {
        partial := TrimRight(partial);
        r := partial;
      } else {
        var line, rest := ReadCommand(fromChild);
        fromChild := rest;
        r := partial + line;
      }
      partial := [];
    }

    /**
     * parent_read_command_available, as written: switch fd_c2p[0] to non-blocking,
     * read one byte into a local buffer (and drop it), decide, switch back to
     * blocking.  Both fcntl calls are taken to succeed.
     */
    method ParentReadCommandAvailable() returns (r: bool)
      requires |partial| > 0
      modifies this`fromChild, this`fromChildFlags
      ensures r == AvailableAsWritten(ReadLength(old(fromChild), writerOpen), partial)
      ensures r <==> |old(fromChild)| > 0 || writerOpen || partial[|partial| - 1] == '\n'
      ensures fromChild == if |old(fromChild)| > 0 then old(fromChild)[1..] else old(fromChild)
      ensures fromChildFlags == SetBlocking(old(fromChildFlags), true)
    {
      var res := FdBlock(fromChildFlags, false, false, false);
      fromChildFlags := res.flags;
      var len := ReadLength(fromChild, writerOpen);
      if len == 1 {
        fromChild := fromChild[1..];
      }
      r := AvailableAsWritten(len, partial);
      res := FdBlock(fromChildFlags, true, false, false);
      NonBlockingThenBlocking(old(fromChildFlags));
      fromChildFlags := res.flags;
    }

    /**
     * parent_read_command_available as evidently intended: when the buffer
     * already ends its line the pipe is left alone; otherwise a byte that is
     * read is kept in the buffer.  A command is available exactly when the
     * buffer now ends its line.  No byte is lost, and an empty buffer is allowed.
     */
    method ParentReadCommandAvailableFixed() returns (r: bool)
      modifies this`fromChild, this`fromChildFlags, this`partial
      ensures partial + fromChild == old(partial) + old(fromChild)
      ensures LineBuffered(old(partial)) ==> partial == old(partial) && fromChild == old(fromChild)
      ensures !LineBuffered(old(partial)) && |old(fromChild)| > 0 ==>
                partial == old(partial) + [old(fromChild)[0]] && fromChild == old(fromChild)[1..]
      ensures !LineBuffered(old(partial)) && |old(fromChild)| == 0 ==>
                partial == old(partial) && fromChild == old(fromChild)
      ensures r <==> LineBuffered(partial)
      ensures fromChildFlags == SetBlocking(old(fromChildFlags), true)
    {
      var res := FdBlock(fromChildFlags, false, false, false);
      fromChildFlags := res.flags;
      if !LineBuffered(partial) {
        var len := ReadLength(fromChild, writerOpen);
        if len == 1 {
          partial := partial + [fromChild[0]];
          fromChild := fromChild[1..];
        }
      }
      r := LineBuffered(partial);
      res := FdBlock(fromChildFlags, true, false, false);
      NonBlockingThenBlocking(old(fromChildFlags));
      fromChildFlags := res.flags;
    }

    /**
     * The corrected poll followed by parent_read_command when it answers true.
     * With a buffer that holds at most a final newline, a true answer means the
     * read returns exactly the next line of the child's stream (buffer followed
     * by pipe) and leaves the rest of that stream in the pipe; a false answer
     * keeps the stream intact, moves at most one byte into the buffer, and
     * leaves the buffer without a newline.
     */
    method ReadIfAvailable() returns (available: bool, line: string)
      requires BufferWellFormed(partial)
      modifies this`fromChild, this`fromChildFlags, this`partial
      ensures BufferWellFormed(partial)
      ensures available ==> '\n' in old(partial) + old(fromChild)
      ensures available ==> line == Line(old(partial) + old(fromChild))
                            && fromChild == AfterLine(old(partial) + old(fromChild)) && partial == []
      ensures !available ==> '\n' !in partial && partial + fromChild == old(partial) + old(fromChild)
      ensures !available && |old(fromChild)| > 0 ==> |fromChild| == |old(fromChild)| - 1
    {
      ghost var stream := partial + fromChild;
      available := ParentReadCommandAvailableFixed();
      line := "";
      if available {
        var p := partial[..|partial| - 1];
        assert partial == Frame(p);
        assert '\n' !in p;
        assert stream == Frame(p) + fromChild;
        WriteThenRead(p, fromChild);
        TrimRightDropsNewline(p);
        line := ParentReadCommand();
      } else {
        assert '\n' !in partial;
      }
    }
  }
}
