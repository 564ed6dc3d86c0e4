/**
 * Newline framing used on every pipe and socket of the server
 * (toolbox/metaSMT-server/solver.cpp, read_command / write_command, and the
 * trimming in connection.cpp's next_line), plus the descriptor-flag arithmetic
 * of fd_block.
 *
 * A pipe is modelled as the string of bytes that are written and not yet read;
 * reading is a cursor over that string.
 */
module Framing {
  import opened Wrappers

  /** The characters `find_last_not_of(" \n\r\t")` skips. */
  predicate IsSpace(c: char) {
    c == ' ' || c == '\n' || c == '\r' || c == '\t'
  }

  /**
   * `s.erase(s.find_last_not_of(" \n\r\t") + 1)`: drop trailing spaces, tabs,
   * carriage returns and newlines (everything, if s is all such characters).
   */
  function TrimRight(s: string): (r: string)
    ensures |r| <= |s| && r == s[..|r|]
    ensures r == [] || !IsSpace(r[|r| - 1])
    ensures forall i :: |r| <= i < |s| ==> IsSpace(s[i])
  {
    if |s| == 0 || !IsSpace(s[|s| - 1]) then s else TrimRight(s[..|s| - 1])
  }

  /** The three ensures of TrimRight determine its result: it is the only such prefix. */
  lemma {:induction false} TrimRightUnique(s: string, r: string)
    requires |r| <= |s| && r == s[..|r|]
    requires r == [] || !IsSpace(r[|r| - 1])
    requires forall i :: |r| <= i < |s| ==> IsSpace(s[i])
    ensures TrimRight(s) == r
  {
    if |r| < |s| {
      TrimRightUnique(s[..|s| - 1], r);
    } else {
      assert r == s;
    }
  }

  /** Trimming twice is trimming once; a trimmed string ends in no space character. */
  lemma TrimRightIdempotent(s: string)
    ensures TrimRight(TrimRight(s)) == TrimRight(s)
    ensures var t := TrimRight(s); t == [] || !IsSpace(t[|t| - 1])
  {
  }

  /** A string without trailing space characters is its own trimming. */
  lemma TrimRightNoTrailing(s: string)
    requires s == [] || !IsSpace(s[|s| - 1])
    ensures TrimRight(s) == s
  {
  }

  /** A final newline is trimmed away with the rest of the trailing space. */
  lemma TrimRightDropsNewline(s: string)
    ensures TrimRight(s + ['\n']) == TrimRight(s)
  {
    assert (s + ['\n'])[..|s|] == s;
  }

  /** Position of the first newline. */
  function NewlineIndex(s: string): (k: nat)
    requires '\n' in s
    ensures k < |s| && s[k] == '\n' && '\n' !in s[..k]
  {
    if s[0] == '\n' then 0 else
      assert '\n' in s[1..] by { assert s == [s[0]] + s[1..]; }
      var k := 1 + NewlineIndex(s[1..]);
      assert s[..k] == [s[0]] + s[1..][..k - 1];
      k
  }

  /** The frame a reader gets: the bytes before the first newline, trailing space removed. */
  function Line(s: string): (r: string)
    requires '\n' in s
    ensures '\n' !in r
    ensures |r| <= NewlineIndex(s) && r == s[..|r|]
    ensures r == [] || !IsSpace(r[|r| - 1])
    ensures forall i :: |r| <= i <= NewlineIndex(s) ==> IsSpace(s[i])
  {
    TrimRight(s[..NewlineIndex(s)])
  }

  /** What the reader leaves in the pipe: everything after the first newline. */
  function AfterLine(s: string): (r: string)
    requires '\n' in s
    ensures |r| < |s| && r == s[NewlineIndex(s) + 1..]
  {
    s[NewlineIndex(s) + 1..]
  }

  /**
   * Reading a line splits the input into the line, the white space trimmed
   * off it, the newline, and the unread rest, with no newline before the
   * one consumed.
   */
  lemma LineDecomposes(s: string)
    requires '\n' in s
    ensures var l := Line(s);
            var ws := s[|l|..NewlineIndex(s)];
      && s == l + ws + ['\n'] + AfterLine(s)
      && '\n' !in l + ws
      && forall i :: 0 <= i < |ws| ==> IsSpace(ws[i])
  {
    var k := NewlineIndex(s);
    var l := Line(s);
    var ws := s[|l|..k];
    assert l + ws == s[..k];
    assert s == s[..k] + [s[k]] + s[k + 1..];
  }

  datatype Split = Split(line: string, rest: string)

  /**
   * connection.cpp's next_line: read up to the next newline and trim; when the
   * stream ends before a newline, read_until fails and next_line throws (None).
   */
  function NextLine(input: string): (r: Option<Split>)
    ensures r.Some? <==> '\n' in input
    ensures r.Some? ==> '\n' !in r.value.line && |r.value.rest| < |input|
  {
    if '\n' in input then Some(Split(Line(input), AfterLine(input))) else None
  }

  /**
   * next_line characterised on its own: when the input holds a newline, the
   * input is the line, some trimmed white space, the newline and the rest;
   * nothing before that newline is a newline and the line does not end in
   * white space.  These conditions fix the line and the rest uniquely.
   */
  lemma NextLineSplits(input: string)
    ensures match NextLine(input)
      case None => '\n' !in input
      case Some(Split(line, rest)) =>
        var ws := input[|line|..|input| - |rest| - 1];
        && input == line + ws + ['\n'] + rest
        && '\n' !in line + ws
        && (line == [] || !IsSpace(line[|line| - 1]))
        && forall i :: 0 <= i < |ws| ==> IsSpace(ws[i])
  {
    if '\n' in input {
      LineDecomposes(input);
    }
  }

  /** write_command: the bytes written for s. */
  function Frame(s: string): (r: string)
    ensures |r| == |s| + 1 && r[..|s|] == s && r[|s|] == '\n'
  {
    s + ['\n']
  }

  /**
   * read_command: read one byte at a time, appending it to s, until a newline
   * has been appended; then trim s.  Returns the line and the unread input.
   */
  method ReadCommand(input: string) returns (line: string, rest: string)
    requires '\n' in input
    ensures line == Line(input) && rest == AfterLine(input)
  {
    ghost var k := NewlineIndex(input);
    var s := "";
    var i := 0;
    var c := input[i];
    s := s + [c];
    i := i + 1;
    while c != '\n'
      invariant 1 <= i <= k + 1
      invariant s == input[..i] && c == input[i - 1]
      invariant c == '\n' ==> i == k + 1
      decreases k + 1 - i
    {
      c := input[i];
      s := s + [c];
      i := i + 1;
    }
    assert s == input[..k] + ['\n'];
    TrimRightDropsNewline(input[..k]);
    line := TrimRight(s);
    rest := input[i..];
  }

  /**
   * Round trip of the framing: reading back what write_command wrote for a
   * newline-free s yields s trimmed and leaves exactly the bytes written after it.
   */
  lemma WriteThenRead(s: string, following: string)
    requires '\n' !in s
    ensures '\n' in Frame(s) + following
    ensures Line(Frame(s) + following) == TrimRight(s)
    ensures AfterLine(Frame(s) + following) == following
  {
    var w := Frame(s) + following;
    assert w[|s|] == '\n';
    assert w[..|s|] == s;
    assert NewlineIndex(w) == |s|;
  }

  /** In particular a newline-free s without trailing space comes back unchanged. */
  lemma WriteThenReadExact(s: string, following: string)
    requires '\n' !in s
    requires s == [] || !IsSpace(s[|s| - 1])
    ensures '\n' in Frame(s) + following
    ensures Line(Frame(s) + following) == s
  {
    WriteThenRead(s, following);
  }

  // fd_block: the O_NONBLOCK bit of a descriptor's status flags.

  /** O_NONBLOCK as Linux defines it (octal 04000). */
  const O_NONBLOCK: bv32 := 0x800

  /** `flags &= ~O_NONBLOCK` when blocking, `flags |= O_NONBLOCK` otherwise. */
  function SetBlocking(flags: bv32, block: bool): (r: bv32)
    ensures (r & O_NONBLOCK == 0) <==> block
    ensures r & !O_NONBLOCK == flags & !O_NONBLOCK
  {
    if block then flags & !O_NONBLOCK else flags | O_NONBLOCK
  }

  datatype FcntlOutcome = FcntlOutcome(ok: bool, flags: bv32)

  /**
   * fd_block over the descriptor's flags; `getFails` and `setFails` say whether
   * fcntl(F_GETFL) and fcntl(F_SETFL) fail.  A failure leaves the flags as they were.
   */
  function FdBlock(flags: bv32, block: bool, getFails: bool, setFails: bool): (r: FcntlOutcome)
    ensures r.ok <==> !getFails && !setFails
    ensures !r.ok ==> r.flags == flags
    ensures r.ok ==> r.flags == SetBlocking(flags, block)
  {
    if getFails then FcntlOutcome(false, flags)
    else if setFails then FcntlOutcome(false, flags)
    else FcntlOutcome(true, SetBlocking(flags, block))
  }

  /** Clearing O_NONBLOCK after setting it gives the blocking flags the descriptor would have had directly. */
  lemma NonBlockingThenBlocking(flags: bv32)
    ensures SetBlocking(SetBlocking(flags, false), true) == SetBlocking(flags, true)
  {
  }
}
