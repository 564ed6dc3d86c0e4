/**
 * The solver child's reply loop, Solver::start in
 * toolbox/metaSMT-server/solver.hpp: read a command line from the parent,
 * append it to the buffered SMT-LIB2 text, and answer `OK` unless the line is
 * `(check-sat)` or contains `(get-value`, in which case the buffered text is
 * handed to the SMT-LIB2 parser and evaluator and their answer is sent.
 *
 * The parser, the evaluator and the solver context behind them are one
 * oracle, `evaluate`, applied to everything buffered so far.  The loop never
 * ends in the source; here it stops where the input holds no further
 * newline, which is where the child would block in read().
 */
module ChildSolver {
  import opened Wrappers
  import opened Framing

  const CHECK_SAT: string := "(check-sat)"
  const GET_VALUE: string := "(get-value"
  const DEFAULT_REPLY: string := "OK"

  predicate OccursAt(s: string, pat: string, i: nat) {
    i + |pat| <= |s| && s[i..i + |pat|] == pat
  }

  /** std::string::find: the first position where `pat` occurs in `s`. */
  function Find(s: string, pat: string): (r: Option<nat>)
    ensures r.Some? ==> OccursAt(s, pat, r.value)
    ensures r.Some? ==> forall j: nat :: j < r.value ==> !OccursAt(s, pat, j)
    ensures r.None? ==> forall j: nat :: !OccursAt(s, pat, j)
    decreases |s|
  {
    if |pat| > |s| then None
    else if s[..|pat|] == pat then Some(0)
    else
      var r := Find(s[1..], pat);
      assert forall j: nat :: 1 <= j ==> (OccursAt(s, pat, j) <==> OccursAt(s[1..], pat, j - 1)) by {
        forall j: nat | 1 <= j ensures OccursAt(s, pat, j) <==> OccursAt(s[1..], pat, j - 1) {
          if j + |pat| <= |s| {
            assert s[1..][j - 1..j - 1 + |pat|] == s[j..j + |pat|];
          }
        }
      }
      assert !OccursAt(s, pat, 0);
      match r
      case None => None
      case Some(i) => Some(i + 1)
  }

  /** The lines that make the child run the parser and evaluator. */
  predicate NeedsEvaluation(line: string) {
    line == CHECK_SAT || Find(line, GET_VALUE).Some?
  }

  /** The two tests of Solver::start: the exact `(check-sat)` line or `(get-value` anywhere. */
  lemma NeedsEvaluationIff(line: string)
    ensures NeedsEvaluation(line) <==> line == CHECK_SAT || exists i: nat :: OccursAt(line, GET_VALUE, i)
  {
    var f := Find(line, GET_VALUE);
    if f.Some? {
      assert OccursAt(line, GET_VALUE, f.value);
    }
  }

  /** The answer to one command, given everything buffered up to and including it. */
  function Reply(line: string, buffered: string, evaluate: string -> string): (r: string)
    ensures r == if line == CHECK_SAT || exists i: nat :: OccursAt(line, GET_VALUE, i)
                 then evaluate(buffered) else DEFAULT_REPLY
  {
    NeedsEvaluationIff(line);
    if NeedsEvaluation(line) then evaluate(buffered) else DEFAULT_REPLY
  }

  /** How Solver::start answers a line, as a function of the line and the buffer. */
  function ChildAnswer(evaluate: string -> string): (string, string) -> string {
    (line, buffered) => Reply(line, buffered, evaluate)
  }

  /** What the child has written, what it has buffered, and the input it has not read. */
  datatype Served = Served(output: string, buffered: string, rest: string)

  /**
   * The reply loop as a function of the input the parent has written,
   * continuing from what has been buffered and written so far.
   */
  function Serve(input: string, buffered: string, output: string, answer: (string, string) -> string): (r: Served)
    ensures '\n' !in r.rest
    ensures output <= r.output && buffered <= r.buffered
    decreases |input|
  {
    match NextLine(input)
    case None => Served(output, buffered, input)
    case Some(Split(line, rest)) =>
      var b := buffered + Frame(line);
      Serve(rest, b, output + Frame(answer(line, b)), answer)
  }

  /** Solver::start, run until the parent has nothing more to read. */
  method Start(input: string, evaluate: string -> string) returns (output: string, buffered: string, rest: string)
    ensures Served(output, buffered, rest) == Serve(input, [], [], ChildAnswer(evaluate))
  {
    output, buffered, rest := [], [], input;
    while '\n' in rest
      invariant Serve(rest, buffered, output, ChildAnswer(evaluate)) == Serve(input, [], [], ChildAnswer(evaluate))
      decreases |rest|
    {
      var ret := DEFAULT_REPLY;
      var line;
      line, rest := ReadCommand(rest);
      buffered := buffered + Frame(line);
      if NeedsEvaluation(line) {
        ret := evaluate(buffered);
      }
      output := output + Frame(ret);
    }
  }

  // ------------------------------------------------------------- properties

  /** Lines as the parent writes them: one command each, no trailing white space. */
  predicate Writable(line: string) {
    '\n' !in line && (line == [] || !IsSpace(line[|line| - 1]))
  }

  /** The lines written one after another, each followed by a newline. */
  function Joined(ls: seq<string>): string {
    if |ls| == 0 then [] else Frame(ls[0]) + Joined(ls[1..])
  }

  /** The replies to `ls`, each given the buffer up to and including its own line. */
  function Replies(ls: seq<string>, buffered: string, answer: (string, string) -> string): string {
    if |ls| == 0 then []
    else
      var b := buffered + Frame(ls[0]);
      Frame(answer(ls[0], b)) + Replies(ls[1..], b, answer)
  }

  /** One turn of the loop: the first line is read, buffered and answered. */
  lemma ServeStep(input: string, buffered: string, output: string, answer: (string, string) -> string)
    requires '\n' in input
    ensures var line := Line(input);
      var b := buffered + Frame(line);
      Serve(input, buffered, output, answer) == Serve(AfterLine(input), b, output + Frame(answer(line, b)), answer)
  {
  }

  /** A command line the parent wrote is read back and answered before what follows it. */
  lemma WriteThenServe(line: string, following: string, buffered: string, output: string, answer: (string, string) -> string)
    requires Writable(line)
    ensures var b := buffered + Frame(line);
      Serve(Frame(line) + following, buffered, output, answer)
        == Serve(following, b, output + Frame(answer(line, b)), answer)
  {
    WriteThenReadExact(line, following);
    WriteThenRead(line, following);
    ServeStep(Frame(line) + following, buffered, output, answer);
  }

  /**
   * Whatever lines the parent writes are buffered verbatim and answered in
   * order, and an unfinished line is left unread.
   */
  lemma {:induction false} ServeWrittenLines(ls: seq<string>, tail: string, buffered: string, output: string, answer: (string, string) -> string)
    requires forall i :: 0 <= i < |ls| ==> Writable(ls[i])
    requires '\n' !in tail
    ensures Serve(Joined(ls) + tail, buffered, output, answer)
      == Served(output + Replies(ls, buffered, answer), buffered + Joined(ls), tail)
    decreases |ls|
  {
    if |ls| == 0 {
      assert Joined(ls) + tail == tail;
      ServeBlocksWithoutNewline(tail, buffered, output, answer);
    } else {
      var b := buffered + Frame(ls[0]);
      var o := output + Frame(answer(ls[0], b));
      ServeWrittenLines(ls[1..], tail, b, o, answer);
      WrittenLinesStep(ls, tail, buffered, output, answer);
    }
  }

  lemma WrittenLinesStep(ls: seq<string>, tail: string, buffered: string, output: string, answer: (string, string) -> string)
    requires |ls| > 0 && Writable(ls[0])
    requires var b := buffered + Frame(ls[0]);
      var o := output + Frame(answer(ls[0], b));
      Serve(Joined(ls[1..]) + tail, b, o, answer)
        == Served(o + Replies(ls[1..], b, answer), b + Joined(ls[1..]), tail)
    ensures Serve(Joined(ls) + tail, buffered, output, answer)
      == Served(output + Replies(ls, buffered, answer), buffered + Joined(ls), tail)
  {
    JoinedSplit(ls, tail);
    WriteThenServe(ls[0], Joined(ls[1..]) + tail, buffered, output, answer);
    RepliesSplit(ls, buffered, output, answer);
    BufferSplit(ls, buffered);
  }

  lemma JoinedSplit(ls: seq<string>, tail: string)
    requires |ls| > 0
    ensures Joined(ls) + tail == Frame(ls[0]) + (Joined(ls[1..]) + tail)
  {
  }

  lemma RepliesSplit(ls: seq<string>, buffered: string, output: string, answer: (string, string) -> string)
    requires |ls| > 0
    ensures var b := buffered + Frame(ls[0]);
      (output + Frame(answer(ls[0], b))) + Replies(ls[1..], b, answer) == output + Replies(ls, buffered, answer)
  {
  }

  lemma BufferSplit(ls: seq<string>, buffered: string)
    requires |ls| > 0
    ensures (buffered + Frame(ls[0])) + Joined(ls[1..]) == buffered + Joined(ls)
  {
    var f, j := Frame(ls[0]), Joined(ls[1..]);
    assert Joined(ls) == f + j;
    assert (buffered + f) + j == buffered + (f + j);
  }

  /** When no answer of the evaluator spans lines, there is one reply line per command line. */
  lemma {:induction false} OneReplyPerLine(ls: seq<string>, buffered: string, answer: (string, string) -> string)
    requires forall line, b :: '\n' !in answer(line, b)
    ensures multiset(Replies(ls, buffered, answer))['\n'] == |ls|
    decreases |ls|
  {
    if |ls| > 0 {
      var b := buffered + Frame(ls[0]);
      var reply := answer(ls[0], b);
      OneReplyPerLine(ls[1..], b, answer);
      assert Frame(reply) + Replies(ls[1..], b, answer) == reply + ['\n'] + Replies(ls[1..], b, answer);
      assert multiset(reply)['\n'] == 0;
    }
  }

  /** A declaration or assertion is acknowledged with OK, whatever the evaluator would say. */
  lemma CommandsAreAcknowledged(line: string, buffered: string, evaluate: string -> string)
    requires line != CHECK_SAT && forall i: nat :: !OccursAt(line, GET_VALUE, i)
    ensures Reply(line, buffered, evaluate) == DEFAULT_REPLY
  {
    NeedsEvaluationIff(line);
  }

  /** `(check-sat)` and any line mentioning `(get-value` reach the evaluator with the whole buffer. */
  lemma QueriesAreEvaluated(line: string, buffered: string, evaluate: string -> string)
    requires line == CHECK_SAT || exists i: nat :: OccursAt(line, GET_VALUE, i)
    ensures Reply(line, buffered, evaluate) == evaluate(buffered)
  {
    NeedsEvaluationIff(line);
  }

  /** The child's replies are single lines whenever the evaluator's are. */
  lemma ChildAnswersAreLines(evaluate: string -> string)
    requires forall text :: '\n' !in evaluate(text)
    ensures forall line, buffered :: '\n' !in ChildAnswer(evaluate)(line, buffered)
  {
    forall line, buffered ensures '\n' !in ChildAnswer(evaluate)(line, buffered) {
      assert ChildAnswer(evaluate)(line, buffered) == Reply(line, buffered, evaluate);
    }
  }

  /** A query with text before it still counts: `  (get-value (x))` is evaluated. */
  lemma GetValueAnywhere(prefix: string, tail: string)
    ensures NeedsEvaluation(prefix + GET_VALUE + tail)
  {
    var s := prefix + GET_VALUE + tail;
    assert OccursAt(s, GET_VALUE, |prefix|) by {
      assert s[|prefix|..|prefix| + |GET_VALUE|] == GET_VALUE;
    }
    NeedsEvaluationIff(s);
  }

  /** The child stops at input with no complete line, having written nothing for it. */
  lemma ServeBlocksWithoutNewline(input: string, buffered: string, output: string, answer: (string, string) -> string)
    requires '\n' !in input
    ensures Serve(input, buffered, output, answer) == Served(output, buffered, input)
  {
  }
}
