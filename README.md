# metaSMT server: a verified model of its core

The metaSMT server accepts TCP clients. It lets each client pick any number of
SMT backends, none included (0 z3, 1 picosat, 2 boolector), forks one child process per
selected backend, and connects parent and child by a pair of pipes. Each
command line from the client goes to every child. The children's one-line
answers are reduced to one reply: the common answer, or
`FAIL inconsistent solver behavior`.

This project models that core in Dafny:

- `Framing` (framing.dfy). Line framing on the pipes: `read_command`, `write_command`,
  `next_line` trimming, and the flag arithmetic of `fd_block`.
- `Processes` (processes.dfy). The `SolverProcess` object as a class. Its two
  pipes are fields holding the bytes written and not yet read. The partial-read
  buffer is a field too. The class has the parent-side and child-side wrappers.
- `Sessions` (sessions.dfy) and `SessionProperties` (session_properties.dfy).
  `new_connection`: the selection loop, the pipe/fork setup loop, and the
  broadcast/gather command loop with its consensus reduction and `exit`
  cleanup. Each phase is written twice: as a loop method, and as the function
  that method is proved equal to.
- `Assertions` (assertions.dfy) and `AssertionProperties` (assertion_properties.dfy).
  The JSON assertion-tree translator `create_assertion` /
  `create_unary_assertion` / `create_binary_assertion`, as a function from a
  property tree to a term or an error.
- `ChildSolver` (child_solver.dfy). The child's reply loop `Solver::start`.
- `Decimal` (decimal.dfy) covers the digit strings read by `lexical_cast` and
  `ptree::get<signed|unsigned>`. `Wrappers` (wrappers.dfy) holds `Option` and `Result`.

OS effects become parameters:

- `spawn(k)` says whether `pipe`/`fork` succeed for the k-th selected solver,
  and gives its pid.
- `childOutput(k)` is everything the k-th child writes back.
- `evaluate` stands for the SMT-LIB2 parser, the evaluator and the backend.
- The client is the string of bytes it sends. The server's replies are the
  string it writes.
- `kill` and `waitpid` calls are recorded in a log.

Undefined behaviour and blocking reads are modelled as outcomes, because they
depend on client input and cannot be preconditions. `Undefined` covers a
command with zero solvers, where `answers[0]` is read. `Blocked` covers a
child whose output holds no further line.

## Model

| member | source | states |
|---|---|---|
| Decimal.NatToDecimal | toolbox/metaSMT-server/connection.cpp:110 | the printed form of a number is a non-empty digit string |
| Decimal.ParseUnsignedCanonical | toolbox/metaSMT-server/connection.cpp:110 | text that `lexical_cast<unsigned>` accepts is the shortest decimal numeral of the value it yields, preceded only by zeros |
| Decimal.ParseUnsignedOverflow | toolbox/metaSMT-server/connection.cpp:110-112 | the numeral of any value of 2^32 or more is rejected, which ends selection |
| Decimal.ParseSigned | toolbox/metaSMT-server/solver.hpp:86 | a `signed` read yields a value in [-2^31, 2^31); on unsigned text it succeeds exactly when the digits' value is below 2^31 |
| Decimal.DecimalRoundTrip | toolbox/metaSMT-server/connection.cpp:110 | reading the digits of a printed number gives the number back |
| Decimal.ParseUnsignedOfDecimal | toolbox/metaSMT-server/connection.cpp:110 | every number below 2^32, once printed, parses back as an unsigned to itself |
| Decimal.ParseSignedOfDecimal | toolbox/metaSMT-server/solver.hpp:86 | every number below 2^31, once printed, parses back as a signed to itself |
| Decimal.ParseSignedRoundTrip | toolbox/metaSMT-server/solver.hpp:86 | every value in the `int` range, negative ones included, once printed, parses back to itself |
| Framing.TrimRight | toolbox/metaSMT-server/solver.cpp:90 | the result is a prefix of the input that does not end in space, tab, CR or LF, and everything cut off is such white space |
| Framing.TrimRightUnique | toolbox/metaSMT-server/solver.cpp:90 | any prefix with those three properties is the trimmed string, so they specify the trim completely |
| Framing.TrimRightIdempotent | toolbox/metaSMT-server/solver.cpp:90 | trimming twice gives the same as trimming once |
| Framing.TrimRightNoTrailing | toolbox/metaSMT-server/solver.cpp:90 | a string without trailing white space is left unchanged |
| Framing.TrimRightDropsNewline | toolbox/metaSMT-server/connection.cpp:85 | the newline getline leaves off makes no difference to the trimmed line |
| Framing.Line | toolbox/metaSMT-server/solver.cpp:81-92 | the command read holds no newline, is a prefix of the bytes before the first newline, does not end in white space, and only white space between it and the newline is dropped |
| Framing.LineDecomposes | toolbox/metaSMT-server/solver.cpp:81-92 | the input is the line read, the trimmed white space, the newline consumed and the unread rest, with no newline before the one consumed |
| Framing.NextLineSplits | toolbox/metaSMT-server/connection.cpp:75-88 | `next_line` fails exactly when no newline is left; otherwise the input is the line, trimmed white space, a newline and the rest, the line does not end in white space and no newline comes earlier |
| Framing.Frame | toolbox/metaSMT-server/solver.cpp:94-98 | the written bytes are `s` followed by exactly one newline |
| Framing.ReadCommand | toolbox/metaSMT-server/solver.cpp:81-92 | the byte-at-a-time loop returns the trimmed first line and leaves exactly the bytes after its newline |
| Framing.WriteThenRead | toolbox/metaSMT-server/solver.cpp:81-98 | reading back what `write_command(s)` wrote, for `s` without newline, gives trimmed `s` and leaves what followed untouched |
| Framing.WriteThenReadExact | toolbox/metaSMT-server/solver.cpp:81-98 | when `s` has no trailing white space, reading it back gives `s` itself |
| Framing.SetBlocking | toolbox/metaSMT-server/solver.cpp:8-11 | the result has `O_NONBLOCK` clear exactly when blocking was asked for, and every other bit of the flags unchanged |
| Framing.FdBlock | toolbox/metaSMT-server/solver.cpp:3-13 | `fd_block` succeeds exactly when both fcntl calls succeed; on success the flags are the updated ones, on failure they are unchanged |
| Framing.NonBlockingThenBlocking | toolbox/metaSMT-server/solver.cpp:50-57 | switching to non-blocking and back leaves the flags as one switch to blocking does |
| Processes.ReadLength | toolbox/metaSMT-server/solver.cpp:54 | a one-byte non-blocking read returns 1 when a byte is pending, -1 on an empty pipe whose writer is open, 0 at end of file, and each exactly then |
| Processes.AvailableAsWrittenOnEmptyPipe | toolbox/metaSMT-server/solver.cpp:54-55 | on an empty pipe whose writer is still open the answer is true, whatever the buffer holds |
| Processes.AvailableAsWrittenCounterexample | toolbox/metaSMT-server/solver.cpp:54-55 | buffer `x`, nothing in the pipe, no newline anywhere: the answer is still true |
| Processes.SolverProcess.constructor | toolbox/metaSMT-server/solver.cpp:27-31 | records the solver type; both pipes and the partial buffer start empty, and the read end is blocking |
| Processes.SolverProcess.ChildReadCommand | toolbox/metaSMT-server/solver.cpp:38-41 | the child reads the trimmed first line of the parent-to-child pipe and consumes exactly its bytes |
| Processes.SolverProcess.ChildWriteCommand | toolbox/metaSMT-server/solver.cpp:43-46 | the child-to-parent pipe gains exactly `s` and a newline |
| Processes.SolverProcess.ParentWriteCommand | toolbox/metaSMT-server/solver.cpp:76-79 | the parent-to-child pipe gains exactly `s` and a newline |
| Processes.SolverProcess.ParentReadCommand | toolbox/metaSMT-server/solver.cpp:62-74 | the buffer is emptied; a buffer that ends its line is returned trimmed without reading the pipe; otherwise the buffer is prepended to the next line read from the pipe |
| Processes.SolverProcess.ParentReadCommandAvailable | toolbox/metaSMT-server/solver.cpp:48-60 | as written: true when a byte was pending, or the writer is open, or the buffer ends its line; one pending byte is consumed and lost; the read end ends up blocking |
| Processes.SolverProcess.ParentReadCommandAvailableFixed | toolbox/metaSMT-server/solver.cpp:48-60 | corrected: no byte is lost (buffer followed by pipe is unchanged); a buffer that already ends its line is left alone with the pipe untouched; otherwise one pending byte moves into the buffer; the answer is true exactly when the buffer now ends its line |
| Processes.SolverProcess.ReadIfAvailable | toolbox/metaSMT-server/solver.cpp:48-74 | the corrected poll, then `parent_read_command` when it answers true: the read returns exactly the next line of the child's stream and leaves the rest of it in the pipe; a false answer keeps the stream and leaves no newline in the buffer |
| Sessions.Select | toolbox/metaSMT-server/connection.cpp:105-121 | selection only appends solvers and replies, selects only kinds 0..2, ends on the first line that is not an unsigned number, and consumes input as it goes |
| Sessions.SelectSolvers | toolbox/metaSMT-server/connection.cpp:105-121 | the selection loop computes exactly `Select` on the client's bytes from an empty list |
| Sessions.SelectAccepts | toolbox/metaSMT-server/connection.cpp:115-120 | a line that reads 0, 1 or 2 once its trailing white space (a CR, say) is trimmed appends that kind at the end of the list and replies `OK` |
| Sessions.SelectRejects | toolbox/metaSMT-server/connection.cpp:115-120 | a line that reads a larger number once trimmed replies `FAIL unsupported solver` and leaves the list unchanged |
| Sessions.SelectEnds | toolbox/metaSMT-server/connection.cpp:109-112 | a line that is not an unsigned number once trimmed ends selection, and its trimmed text and the rest of the input are kept for the command loop |
| Sessions.FirstFailure | toolbox/metaSMT-server/connection.cpp:124-136 | the index reached is the first solver whose pipe or fork fails, or the list length when none fails |
| Sessions.SetupSpec | toolbox/metaSMT-server/connection.cpp:124-139 | setup is ready exactly when every spawn succeeds; the forked solvers keep their kind and pid in list order; a failure stops at the first failing solver with the pipe or fork message |
| Sessions.SpawnSolvers | toolbox/metaSMT-server/connection.cpp:124-139 | the setup loop computes exactly `SetupSpec` |
| Sessions.Broadcast | toolbox/metaSMT-server/connection.cpp:169-171 | each solver's input grows by exactly the framed command, and nothing else about any solver changes |
| Sessions.BroadcastCommand | toolbox/metaSMT-server/connection.cpp:169-171 | every solver, in list order, gets the command and one newline appended to its input, and nothing else changes |
| Sessions.GatherAnswers | toolbox/metaSMT-server/connection.cpp:173-177 | succeeds exactly when every solver has a complete line pending; then `answers[k]` is the k-th solver's line and exactly that line is consumed from each |
| Sessions.AdjacentReachesFirst | toolbox/metaSMT-server/connection.cpp:181-186 | when adjacent answers are pairwise equal, every answer equals the first |
| Sessions.AdjacentEqualIffAllEqual | toolbox/metaSMT-server/connection.cpp:181-186 | the adjacent-pairs test holds exactly when all answers are equal |
| Sessions.Agreement | toolbox/metaSMT-server/connection.cpp:179-186 | when all answers are equal the reply is each solver's answer as one line; otherwise it is `FAIL inconsistent solver behavior`; the reply always ends in a newline |
| Sessions.Consensus | toolbox/metaSMT-server/connection.cpp:179-186 | for a non-empty list the reply is the first answer and a newline when all answers are equal, else `FAIL inconsistent solver behavior` |
| Sessions.ReplyIsOneLine | toolbox/metaSMT-server/connection.cpp:180-188 | the consensus reply is exactly one line |
| Sessions.KillAll | toolbox/metaSMT-server/connection.cpp:160-166 | the log holds, for each solver in list order, SIGTERM to its pid followed by a wait for it, and nothing else |
| Sessions.KillSolvers | toolbox/metaSMT-server/connection.cpp:160-166 | the exit loop records exactly `KillAll` |
| Sessions.Commands | toolbox/metaSMT-server/connection.cpp:159-190 | the command loop only appends to the replies written before it (its other properties are the SessionProperties lemmas) |
| Sessions.CommandLoop | toolbox/metaSMT-server/connection.cpp:159-190 | the command loop computes exactly `Commands` |
| Sessions.Run | toolbox/metaSMT-server/connection.cpp:90-196 | whatever the client sends and however setup goes, the catalogue is the first thing written |
| Sessions.NewConnection | toolbox/metaSMT-server/connection.cpp:90-196 | the whole session computes exactly `Run`: catalogue, selection, setup, command loop |
| SessionProperties.CommandsKeepsSolvers | toolbox/metaSMT-server/connection.cpp:159-190 | the command loop never adds, drops or reorders solvers, nor changes a kind or pid |
| SessionProperties.CommandsSendsAlike | toolbox/metaSMT-server/connection.cpp:169-171 | every solver is sent the same bytes over the whole command loop |
| SessionProperties.CommandsSignalsOnlyOnExit | toolbox/metaSMT-server/connection.cpp:159-190 | the loop signals only on `exit`, and then signals the final solver list; it only appends to the replies |
| SessionProperties.SessionCleanup | toolbox/metaSMT-server/connection.cpp:124-167 | a session signals only if it ends with `exit`; then it terminates and reaps exactly the selected and forked solvers, once each, in selection order; the catalogue is always sent first |
| SessionProperties.CommandStep | toolbox/metaSMT-server/connection.cpp:169-189 | a non-`exit` command is sent to all solvers, one answer is read from each, exactly one reply line is written, then the next client line becomes the command |
| SessionProperties.ExitEndingSelection | toolbox/metaSMT-server/connection.cpp:107-166 | when `exit` ends selection it is the first command: the forked solvers are killed at once and no reply is written after selection |
| SessionProperties.SelectZeroThenExit | toolbox/metaSMT-server/connection.cpp:105-121 | input `0` then `exit` selects one z3 solver, replies `OK` once, and hands `exit` on |
| SessionProperties.SelectThenExit | toolbox/metaSMT-server/connection.cpp:90-167 | a whole session `0`, `exit` writes the catalogue and `OK`, forks one z3 child, then sends it SIGTERM and waits for it |
| Assertions.FindIndex | toolbox/metaSMT-server/solver.cpp:15-23 | `ptree::find` finds a key exactly when some child has it, and yields the first such child |
| Assertions.Child | toolbox/metaSMT-server/solver.hpp:97 | `get_child` succeeds exactly when the key is present, else reports that path; the child is smaller than the node |
| AssertionProperties.KeyAt | toolbox/metaSMT-server/solver.hpp:97 | the child `get_child` returns, and the datum `get<std::string>` returns, belong to the first child under the key |
| Assertions.GetString | toolbox/metaSMT-server/solver.hpp:64 | `get<std::string>` succeeds exactly when the key is present, yields the datum of a child with that key, and otherwise reports the path |
| Assertions.GetSigned | toolbox/metaSMT-server/solver.hpp:86 | `get<signed>` reports a missing key as a bad path and an unconvertible datum as bad data, and yields only `int` values |
| Assertions.GetUnsigned | toolbox/metaSMT-server/solver.hpp:86 | `get<unsigned>` reports a missing key as a bad path and an unconvertible datum as bad data, and yields only values below 2^32 |
| Assertions.IsUnary | toolbox/metaSMT-server/solver.cpp:15-18 | a node is unary exactly when some child is named `operand` |
| Assertions.IsBinary | toolbox/metaSMT-server/solver.cpp:20-23 | a node is binary exactly when it has both an `lhs` and an `rhs` child |
| Assertions.UnaryNamesInverse | toolbox/metaSMT-server/solver.hpp:98-105 | looking up the name of each unary operator gives that operator back |
| Assertions.UnaryNamesOnly | toolbox/metaSMT-server/solver.hpp:98-107 | the unary dispatch accepts no name other than `not`, `bvnot` and `bvneg`, each for its own operator |
| Assertions.BinaryNamesInverse | toolbox/metaSMT-server/solver.hpp:119-196 | looking up the primary name of each of the 35 binary operators gives that operator back, so each is reachable |
| Assertions.BinaryNamesOnly | toolbox/metaSMT-server/solver.hpp:119-199 | the binary dispatch accepts only an operator's own name or its symbol alias, so every other name is unsupported |
| Assertions.LogicAliasesAgree | toolbox/metaSMT-server/solver.hpp:119-130 | `=`/`equal`, `!=`/`nequal`, `=>`/`implies`, `&&`/`and`, `\|\|`/`or` each name one operator |
| Assertions.BitwiseAliasesAgree | toolbox/metaSMT-server/solver.hpp:140-149 | `&`/`bvand`, `\|`/`bvor`, `^`/`bvxor` each name one operator |
| Assertions.ArithmeticAliasesAgree | toolbox/metaSMT-server/solver.hpp:153-158 | `+`/`bvadd`, `*`/`bvmul`, `-`/`bvsub` each name one operator |
| Assertions.CompareConcatAliasesAgree | toolbox/metaSMT-server/solver.hpp:168-196 | `==`/`bvcomp` and `++`/`concat` each name one operator |
| Assertions.ToUnsignedLong | toolbox/metaSMT-server/solver.hpp:86 | converting a signed value to `unsigned long` gives the value below 2^64 congruent to it modulo 2^64 |
| Assertions.CreateAssertion | toolbox/metaSMT-server/solver.hpp:62-90 | a translated term uses only declared names and representable constants; binary nodes come from trees with `lhs` and `rhs`, unary ones from trees with `operand` and no such pair, leaves from trees with neither |
| Assertions.CreateUnaryAssertion | toolbox/metaSMT-server/solver.hpp:92-109 | a successful unary translation is a unary term over declared names |
| Assertions.CreateBinaryAssertion | toolbox/metaSMT-server/solver.hpp:111-200 | a successful binary translation is a binary term over declared names |
| AssertionProperties.BinaryNode | toolbox/metaSMT-server/solver.hpp:111-199 | a node with `lhs` and `rhs` is binary whatever else it holds; a bad left child is reported before a bad right child, which is reported before an unknown operator |
| AssertionProperties.UnaryNode | toolbox/metaSMT-server/solver.hpp:92-109 | a node with `operand` and without the pair is unary; a bad operand is reported before an unknown operator |
| AssertionProperties.MissingOperator | toolbox/metaSMT-server/solver.hpp:64 | a node without `op` is rejected with a bad-path error for `op` before anything else is looked at |
| AssertionProperties.VariableNode | toolbox/metaSMT-server/solver.hpp:70-83 | a variable resolves to the predicate of that name, else the bit-vector of that name, else it is an undefined variable |
| AssertionProperties.IntegerNode | toolbox/metaSMT-server/solver.hpp:84-86 | an integer node becomes `bvuint` of the value converted to `unsigned long`, with the given width |
| AssertionProperties.UnknownLeaf | toolbox/metaSMT-server/solver.hpp:87-89 | a leaf whose `op` is neither `variable` nor `integer` is an unsupported operator |
| AssertionProperties.UnknownBinaryOperator | toolbox/metaSMT-server/solver.hpp:197-199 | an operator name outside the binary table is rejected once both children translate |
| AssertionProperties.UnaryNameOnBinaryNode | toolbox/metaSMT-server/solver.hpp:66-69 | `not` on a node that also has `lhs` and `rhs` is looked up as binary and rejected |
| AssertionProperties.EncodeRoundTrip | toolbox/metaSMT-server/solver.hpp:62-200 | every term over declared names with constants the `signed` read can carry, encoded as a property tree, translates back to itself |
| AssertionProperties.NegativeIntegerWraps | toolbox/metaSMT-server/solver.hpp:86 | the integer `-1` becomes the all-ones constant 2^64 - 1 |
| ChildSolver.Find | toolbox/metaSMT-server/solver.hpp:258 | `std::string::find` yields the first position where the pattern occurs, or none when it occurs nowhere |
| ChildSolver.NeedsEvaluationIff | toolbox/metaSMT-server/solver.hpp:258-259 | a line is evaluated exactly when it is `(check-sat)` or contains `(get-value` somewhere |
| ChildSolver.Reply | toolbox/metaSMT-server/solver.hpp:254-264 | the answer is the evaluator's on the whole buffer exactly when the line is `(check-sat)` or contains `(get-value` at some position, and `OK` otherwise |
| ChildSolver.Serve | toolbox/metaSMT-server/solver.hpp:253-266 | the loop stops only where no complete line is left, and only appends to what it has written and buffered |
| ChildSolver.Start | toolbox/metaSMT-server/solver.hpp:249-267 | the reply loop computes exactly `Serve` on the parent's bytes, from an empty buffer and no output |
| ChildSolver.WriteThenServe | toolbox/metaSMT-server/solver.hpp:254-265 | a command line the parent wrote is buffered verbatim and answered before anything after it is read |
| ChildSolver.ServeWrittenLines | toolbox/metaSMT-server/solver.hpp:253-266 | for any lines written by the parent, the child buffers all of them in order, writes one answer per line in order, and leaves an unfinished line unread |
| ChildSolver.OneReplyPerLine | toolbox/metaSMT-server/solver.hpp:265 | when no answer spans lines, the child writes exactly as many reply lines as it reads commands |
| ChildSolver.CommandsAreAcknowledged | toolbox/metaSMT-server/solver.hpp:254-259 | any other line, a declaration or an assertion, is answered `OK` whatever the evaluator would say |
| ChildSolver.QueriesAreEvaluated | toolbox/metaSMT-server/solver.hpp:259-264 | `(check-sat)` and every line containing `(get-value` are answered by the evaluator applied to the whole buffer |
| ChildSolver.ChildAnswersAreLines | toolbox/metaSMT-server/solver.hpp:254-265 | the child's replies are single lines whenever the evaluator's are |
| ChildSolver.GetValueAnywhere | toolbox/metaSMT-server/solver.hpp:258-259 | a line with text before `(get-value` is still evaluated |
| ChildSolver.ServeBlocksWithoutNewline | toolbox/metaSMT-server/solver.hpp:255 | on input without a complete line the child reads nothing, writes nothing and waits |

## Left out

- The listener in toolbox/metaSMT-server/main.cpp (boost::asio acceptor, one thread per connection) is I/O and concurrency only, and is not part of this model. toolbox/metaSMT-server/connection.hpp holds declarations only.
- The older `SolverProcess` definitions at the top of connection.cpp are not modelled, except for its `parent_read_command`. That one is a plain `read_command` on the child-to-parent pipe, and the session uses it to read answers (`Sessions.GatherAnswers`). The solver.cpp version needs a non-empty partial buffer, which the session never fills.
- `pipe`, `fork`, `kill`, `waitpid`, `read`, `write` and `fcntl` are not executed. Pipe and fork outcomes are the `spawn` oracle. `initPipes` is folded into it.
- `Sessions.SetupSpec`: the forked child's branch of the setup loop (connection.cpp:141-155) is another process. It is modelled only through its reply rule (`ChildSolver`). What each child writes back to the session is the independent oracle `childOutput`, not tied to `ChildSolver.Serve`.
- The SMT-LIB2 parser, `UTreeEvaluator`, the metaSMT `evaluate` calls and the Z3, PicoSAT and Boolector backends are foreign code. The evaluator is the oracle `evaluate`, and translated assertions are the `Term` datatype.
- `ChildSolver.Reply`: the `std::stringstream` read position used by `parser.parse` is left out. The evaluator sees the whole buffer each time.
- `ChildSolver.OneReplyPerLine`: it is stated only for evaluators whose answers hold no newline. A multi-line answer would desynchronise the line protocol.
- Framing.ReadCommand: a `read` that returns 0 (end of file) or fails inside the byte loop is undefined behaviour in the source. Input must hold a newline. `ChildSolver.Start` stops at input without a newline, where the child would block.
- The end of the client stream, where `read_until` fails inside `next_line`, is the `ClientGone` outcome.
- `Sessions.Run`: every write to the client (connection.cpp:96, 120, 128, 135, 188) succeeds in the model. In the source a failed write throws into the handler at connection.cpp:191-195 and the session ends there without signalling any solver; the model instead goes on with the rest of the input, so it can reach `Exited` where the source would have stopped.
- The `std::cout` logging of the session (connection.cpp:92, 127, 134, 163, 192) is output to the server's console only and is not modelled.
- Decimal.ParseUnsigned: boost's `lexical_cast<unsigned>` also accepts a leading sign, and for `-n` it wraps. The model accepts digits only. A signed line therefore ends selection here.
- Decimal.ParseSigned: leading and trailing white space and a `+` sign, which the stream extraction behind `ptree::get<signed>` accepts, are not accepted here.
- Assertions.GetSigned: through `Decimal.ParseSigned` it rejects a `value` datum with white space around it or a `+` sign, which the source reads.
- Assertions.GetUnsigned: the stream extraction behind `ptree::get<unsigned>("width")` also accepts a sign and white space, and wraps a negative value modulo 2^32; the model accepts digits only.
- AssertionProperties.EncodeRoundTrip: it is stated only for constants that the `signed` value read can carry (below 2^31, or 2^64 - 2^31 and above). A wider `bvuint` cannot be written by a client.
- The order in which the `value` and `width` of an integer node are read is unspecified in C++. The model reads `value` first, which decides only which of two errors is reported when both are bad.
- `Processes.SolverProcess.ParentReadCommandAvailable`: failures of the two `fcntl` calls are not modelled (both are taken to succeed). `Framing.FdBlock` models the failure cases on its own.
- Process cleanup on a lost client or a setup failure does not exist in the source, so the model records no signals for those outcomes. Memory release (`delete`) is not modelled.

## Findings

| source | as written | input that shows it | evidently intended | confidence | as-written member | corrected member |
|---|---|---|---|---|---|---|
| toolbox/metaSMT-server/solver.cpp:48-60 | `parent_read_command_available` answers `len != 0 \|\| buffer ends in newline`. On an empty pipe the non-blocking read returns -1 (EAGAIN), because the parent still holds the pipe's write end open. A byte that is read goes into a local array and is dropped. | partial buffer `x`, child-to-parent pipe empty, write end open: the answer is true though no line is available; a pending byte is lost from the stream | report true exactly when a complete line is buffered, leave the pipe alone when one already is, and keep any byte read in the partial buffer, so that the following `parent_read_command` returns exactly the next line (`Processes.SolverProcess.ReadIfAvailable`) | not executed | Processes.AvailableAsWrittenCounterexample | Processes.SolverProcess.ParentReadCommandAvailableFixed |
