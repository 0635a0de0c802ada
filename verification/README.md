# Verified model of the calculator server, its transport and its message layouts

This project models four parts of the repository in Dafny and proves what they promise.

* **The calculator server** (`go/main.go`). Expressions are literals, results of earlier requests,
  parameters and calls; capabilities live in an append-only table. `Calculator.dfy` gives the
  evaluator as a function over an arbitrary number type, `Server.dfy` gives the server as a class
  whose methods recurse and fill argument lists in place, and proves that they compute that
  function. `Session.dfy`, `Precedence.dfy`, `Determinacy.dfy`, `StaticCheck.dfy`, `Erasure.dfy`,
  `Parameters.dfy`, `Substitution.dfy`, `Inlining.dfy`, `Transparency.dfy` and `Trace.dfy` hold the
  theorems about the language.
* **The client's programs** (`ts/src/client.ts`): the functions `f` and `g`, and the pipelined
  accumulation loop, in `Client.dfy`.
* **The TCP transport** (`ts/src/tcp-transport.ts`): `Framing.dfy` has the stream framing of the
  Cap'n Proto encoding specification (section "Serialization Over a Stream") as an encoder and the
  receiver as a function on streams; `Transport.dfy` has the socket, the blocking read loop and
  `recvMessage` as they run, and proves that they compute that function.
* **Generated accessors**: `Layout.dfy`, `Records.dfy` and `ExpressionLayout.dfy` place fields by
  byte offset (Go, TypeScript) and by element index (Rust), for the audio and video frame records
  and for the `Expression` union.

## How to read the model

* Numbers are a type parameter. A `World` supplies the meaning of the four operators and the
  client's callbacks, the latter as pure functions from argument lists to replies. Theorems about
  `f` and `g` assume exact addition and multiplication; the theorem about the accumulation loop
  assumes only that adding whole numbers is exact up to 2^53.
* A request names only capabilities of earlier requests. An entry of the table may still be a
  promise (`Pending`); an evaluation that needs it is `Blocked`.
* A nil capability answers with an error before any argument is evaluated, as the generated client
  does (`go/calculator/calculator.capnp.go:559-562`). A capability of the other interface, one whose
  request failed, or a promise is taken to do the same; `Precedence.dfy` and `Determinacy.dfy` prove
  what remains true when the RPC library may evaluate arguments first.
* `int` in the Go server is 64 bits wide, so a parameter index is never negative.
* The builder callback of a pipelined call runs inside the call, so the loop of `stressTest` captures
  the previous `lhs`.
* A message is one tree of structs with one capability table; every stored client adds an entry.

## Where the code differs from what is written about it

* The schema says that a defined function returns its body "after substituting these parameters".
  That holds for every argument list of the right length up to the error a body reports when it
  comes to a parameter it does not have. `Substitution.SubstitutionExact` gives the exact condition
  for equal outcomes and `Substitution.SubstitutionExample` an instance where they differ.
* A result capability stands for its expression, but inside a function body not when evaluating that
  expression comes to a parameter: `Transparency.NodeTransparent` gives the exact condition, on the
  expression's shape, and `Transparency.NodeExample` an instance.
* The server evaluates arguments the body never uses, so inlining a function can turn a failure into
  a value: `Inlining.InliningExact` and `Inlining.InliningExactByShape` give the exact condition and
  `Inlining.DiscardExample` an instance.
* The encoding allows a message without a single word; `recvMessage` refuses it
  (`Framing.FrameReceived`, and `Framing.EmptyMessageExample` for the smallest one).
* TypeScript's `initCall` and Go's `SetCall` keep the old pointers, Rust's `init_call` clears them.
  Whether this shows depends on what the program stores afterwards: `ExpressionLayout.ReuseRoundTrip`
  says exactly when, for programs that do or do not store a nil function and an empty list, and
  `ExpressionLayout.LeftoverExample` and `ExpressionLayout.StaleListExample` are instances in Go and
  TypeScript.

## Model

| member | source | states |
|---|---|---|
| Server.CalculatorServer.EvaluateExpr | go/main.go:96-155 | the recursive evaluator with its in-place argument lists terminates through stored bodies, computes `Calculator.Eval`, the function all language theorems are about, and makes exactly the client calls of `Trace.Run` in its order |
| Server.CalculatorServer.EvaluateParams | go/main.go:126-145 | the loop that fills `pparams` returns the values of all arguments, or the outcome of the first that does not evaluate, and makes the client calls of the arguments up to there |
| Server.CalculatorServer.CallFunction | go/main.go:73-93 | calling an operator, a defined function or a client function on an argument array computes `Calculator.Apply`, arity errors included |
| Server.CalculatorServer.ReadValue | go/main.go:58-61 | the result of an evaluate request reads as the outcome its expression had when the request was answered, however many requests followed; no other capability reads as a number, and reading never waits |
| Server.CalculatorServer.Evaluate | go/main.go:157-172 | the new table is the old one and one entry with the outcome outside any function; it stays the sequential table of the requests answered, the entry is never left pending, and the log of client calls grows by those of the evaluation |
| Server.CalculatorServer.DefFunction | go/main.go:65-94 | the body and arity are stored unchecked as the next entry; the table stays the sequential one, so a body names only older entries |
| Server.CalculatorServer.GetOperator | go/main.go:206-213 | the next entry is the operator of the code, or an error for a code beyond the four |
| Server.CalculatorServer.Export | ts/src/client.ts:276-286 | the next entry is a function of the client's own |
| Calculator.NilFunction | go/calculator/calculator.capnp.go:559-562 | a call without a function fails as the nil client does, whatever its arguments and over any table |
| Calculator.CallOfNoFunction | go/main.go:123-145 | a call of a number fails as a missing method, of a failed result with that result's error, and of a promise waits |
| Calculator.ReadOfAnything | go/calculator/calculator.capnp.go:376-379 | a nil result fails as the nil client does, a number reads as itself, a function fails as a missing method, a failed result has its own error, and a promise is waited for |
| Calculator.EvalArgsExactly | go/main.go:136-143 | an argument list has every value in its place, or the outcome of the leftmost argument that does not evaluate |
| Calculator.BoundExactly | go/main.go:96-155 | the bound the theorems require of an expression holds exactly when every capability it names, anywhere in it, is an entry of the table |
| Session.EvalMonotone | go/main.go:96-155 | resolving more promises never changes an outcome that was not waiting |
| Session.EvalProceeds | go/main.go:96-155 | an evaluation over resolved capabilities never waits |
| Session.SequentialSolves | go/main.go:157-172 | every entry of the sequential table is what its request gives in the finished table, and none is pending |
| Session.ScheduleIndependence | go/main.go:65-94 | at every moment of every interleaving of pipelined requests, an answered request has the answer of strict sequential order, errors included, when calls look at their function first |
| Session.StepExactly | go/main.go:157-172 | in every table a schedule can reach, a request can be answered now if and only if it is waiting and its evaluation does not wait; its only possible answer is the sequential one |
| Session.OutOfOrderExample | go/main.go:157-172 | a literal is answered before an operator requested earlier |
| Session.RunsAreChains | schema/calculator.capnp:10-17 | the runs are the chains of such steps, in any order, from the moment every request waits |
| Session.Progress | schema/calculator.capnp:10-17 | every waiting request whose named capabilities and what they name are answered can be answered now, with its sequential answer, and one that evaluates nothing can be answered at once |
| Session.RunLength | schema/calculator.capnp:10-17 | after k steps exactly k requests are answered |
| Session.Confluence | schema/calculator.capnp:10-17 | a run that cannot go on has answered every request in one step each and ends in the sequential table |
| Precedence.EvalMay | go/main.go:123-149 | looking at the function first is one of the orders the nondeterministic semantics allows |
| Precedence.MaySettles | go/main.go:123-149 | with a free choice, every time a call is evaluated, of looking at the function or at the arguments first, any answer over a partly resolved table is the final value, or an error where the final outcome is an error |
| Precedence.MayMonotone | go/main.go:123-149 | resolving more promises takes no possible answer away |
| Precedence.ValuesIgnorePrecedence | go/main.go:123-149 | in every interleaving with these choices, an answered request has its sequential value or fails where sequential order fails |
| Precedence.MayStepExactly | go/main.go:157-172 | the possible answers of a waiting request, in any table and any order of requests, are exactly the outcomes of its expression that do not wait |
| Precedence.MayRunsAreChains | schema/calculator.capnp:10-17 | the runs are the chains of such steps |
| Precedence.ProgressEitherWay | go/main.go:123-149 | every waiting request whose named capabilities and what they name are answered has a possible answer, and none of its possible outcomes waits |
| Precedence.ArgumentsMayComeFirst | go/main.go:126-145 | over any table, promises included, whatever goes wrong in the arguments may be the outcome of the call: they need not wait for the function |
| Precedence.FunctionMayComeFirst | go/main.go:126-145 | and so may whatever is wrong with the function, waiting included |
| Precedence.MayValue | go/main.go:123-149 | over any table, resolved or not, either every order has the same value or no order has one |
| Precedence.PrecedenceExample | go/main.go:123-149 | a nil result passed to a failed function may report either error, and passed to a promised function may fail at once or wait |
| Determinacy.FailuresExact | go/main.go:96-155 | over any table, promises included, a shape-only function gives exactly the errors some order reports, through arguments and stored bodies, with callbacks that answer |
| Determinacy.DeterminedByShape | go/main.go:123-149 | the outcome is the same in every order if and only if that set has at most one error |
| Determinacy.CallsFunctionsExactly | go/main.go:123-149 | the condition of the next row holds node by node, through arguments and stored bodies, and for everything the shape checker accepts |
| Determinacy.CallsFunctionsDetermined | go/main.go:123-149 | an expression whose calls all name functions has one outcome, whether or not callbacks answer |
| Determinacy.DeterminedExactly | go/main.go:157-172 | every answer of every schedule and order is the sequential one, errors included, if and only if every evaluate request has one outcome in the finished table |
| Determinacy.DeterminedExactlyByShape | go/main.go:157-172 | the same with the condition read off shapes, with callbacks that answer |
| Determinacy.FunctionCallsAreSequential | go/main.go:157-172 | a session whose requests call functions only is answered sequentially under every schedule and order |
| StaticCheck.ExactSuccess | go/main.go:96-155 | success implies that the shape-only checker accepts, and with callbacks that answer the two are equivalent |
| StaticCheck.CallbacksAnswerExactly | go/main.go:96-155 | the assumption that callbacks answer is the weakest under which every accepted expression succeeds |
| StaticCheck.SuccessIgnoresNumbers | go/main.go:96-155 | evaluations that agree after erasing every number succeed together, even over different number types and operators |
| Erasure.EvalErased | go/main.go:96-155 | evaluating and then forgetting the number is evaluating without numbers: the outcome, down to the error, is static when callbacks answer |
| Erasure.AlwaysAnswersExactly | go/main.go:96-155 | the assumption on whole sessions is the same assumption over every table |
| Erasure.SessionErased | go/main.go:157-172 | the table of a whole session with its numbers forgotten is the table of the session without numbers |
| Erasure.SessionsAlike | go/main.go:157-172 | sessions that differ only in numbers, even of different types, answer every request alike, a value for a value and the same error for an error |
| Substitution.SameUpToScopeExactly | go/main.go:109-120 | what "up to the kind of scope error" means: the same outcome, or parameter k out of range on one side and the same k outside any function on the other |
| Substitution.SubstitutionSound | go/main.go:107-122 | evaluating with an argument list and evaluating the substituted expression outside functions give the same outcome up to the kind of scope error |
| Substitution.CallIsSubstitution | schema/calculator.capnp:70-73 | a call with the right number of arguments is the evaluation of the substituted body up to the kind of scope error, the two succeed together, and they are equal exactly when the substituted body is parameter-free; otherwise it is an arity error |
| Substitution.SubstitutionExact | schema/calculator.capnp:70-73 | the two outcomes are equal, errors included, if and only if the substituted body is parameter-free; with callbacks that answer, if and only if its shape reaches no parameter |
| Substitution.SubstitutionExample | go/main.go:118-120 | a concrete function whose two outcomes differ |
| Inlining.InScopeByUses | go/main.go:118-120 | a body names only parameters it has exactly when every parameter it uses is below the count |
| Substitution.InScopeReachesNone | go/main.go:118-120 | a body that names only parameters it has reaches none after substitution |
| Inlining.AgreementExactly | go/main.go:107-122 | what agreement means: the same value or no value; and up to a parameter out of range: the same outcome, or that error on one side and a nil result on the other |
| Inlining.SpliceSound | go/main.go:73-93 | argument expressions in place of parameters have the outcome of passing their values, up to the error of a parameter out of range |
| Inlining.InlinePreservesValues | go/main.go:123-151 | whatever the server computes, the expression with every defined call expanded computes too |
| Inlining.ArgumentsSucceedExactly | go/main.go:136-143 | the condition of the next row holds call by call, bodies included, and whenever the server computes a value |
| Inlining.InlineAgreesOnArguments | go/main.go:123-151 | whenever every expanded argument evaluates, expansion has the server's value, wait or error, except that a parameter out of range reads as a nil result |
| Inlining.InlineAgrees | go/main.go:123-151 | they also do on every input when no function that can succeed discards a parameter |
| Inlining.DiscardIsObservable | go/main.go:136-143 | a function that can succeed and discards a parameter has a call that fails at the server and succeeds once expanded |
| Inlining.DiscardExample | go/main.go:136-143 | a concrete such call |
| Inlining.InliningExact | go/main.go:123-151 | agreement on all expressions and parameter lists holds if and only if no function that can succeed discards a parameter |
| Inlining.InliningExactByShape | go/main.go:123-151 | with callbacks that answer, the same if and only if for a condition read off the table: no function whose body the shape checker accepts discards a parameter |
| Inlining.InlineReachesPrimitives | go/main.go:73-93 | an accepted expression expands until only operators and client functions are called |
| Parameters.Dichotomy | go/main.go:107-116 | an outcome is either the same in every context or is the scope error of a parameter reached first |
| Parameters.Weakening | go/main.go:165-170 | a value computed outside functions is computed under every parameter list |
| Parameters.ParameterFreeByTrial | go/main.go:107-116 | one trial with an empty parameter list decides whether an expression ever depends on parameters |
| Parameters.ParameterFreeExact | go/main.go:107-116 | an expression whose shape reaches no parameter is parameter-free, and with callbacks that answer no other one is |
| Transparency.NodeTransparent | go/main.go:100-106 | a result capability and its expression are interchangeable outside functions always, and in every context if the expression's shape reaches no parameter; with callbacks that answer, only then |
| Transparency.NodeExample | go/main.go:109-111 | a concrete result that is not interchangeable inside a function |
| Transparency.ReplacesSound | go/main.go:100-106 | replacing any choice of result nodes by their expressions, each occurrence on its own and recursively, at top level without condition and in stored bodies where the expression is parameter-free, leaves every outcome equal |
| Transparency.ReplacesNode | go/main.go:100-106 | a node may be replaced by its expression: any evaluate result at top level, and in a body any whose shape reaches no parameter |
| Transparency.ReplacesUnderCall | go/main.go:100-106 | a replacement inside one argument is a replacement inside the call, so the node may stand anywhere |
| Transparency.ReplacesAgain | go/main.go:100-106 | replacing can go on inside what was put in |
| Transparency.ReplacesInRequest | go/main.go:157-172 | starting from the session itself, one more replacement in any request or stored body is a replacement of the session, so every choice is reached |
| Transparency.SessionTransparent | go/main.go:157-172 | a session with any such replacements in its requests is valid and ends with the same values, the same errors and the same functions up to the replaced nodes |
| Trace.CompileSound | go/main.go:126-149 | a stack machine running the post-order program from any state continues with the evaluator's value and calls, or stops with its error and calls |
| Trace.EvaluateIsExecute | go/main.go:96-155 | the evaluator and the machine have the same outcome and the same client calls, and the machine never crashes |
| Trace.OrderExample | go/main.go:136-143 | with two client calls as arguments, the first is made first and its reply is the first operand |
| Trace.CallbackTrace | go/main.go:126-149 | client functions are called once per node in left-to-right post-order with bodies expanded in place; on failure a prefix of it, and a refused call is the last and is the reported error |
| Client.FComputes | ts/src/client.ts:182-198 | f(x, y) is 100x + y for all x and y |
| Client.GComputes | ts/src/client.ts:200-221 | g(x) is 202x + 2 for all x, through the nested call of f |
| Client.DefineFunctions | ts/src/client.ts:175-221 | defining both on a server in any state makes calls of the returned capabilities compute these formulas |
| Client.ExactRange | ts/src/client.ts:322-333 | the sum of the numbers below n is at most 2^53 if and only if n is at most 2^27 |
| Client.AddTo | ts/src/client.ts:323-332 | one pass of the loop turns the sum of the numbers below i into the sum below i + 1 |
| Client.Accumulate | ts/src/client.ts:313-336 | the loop on the server ends with n(n-1)/2 for every n up to 2^27 |
| Client.LoopValues | ts/src/client.ts:322-333 | every intermediate result of the pipelined loop is its exact partial sum |
| Client.AccumulationUnderAnySchedule | ts/src/client.ts:313-336 | in whatever order the server answers the pipelined requests, an answered one holds its exact partial sum |
| Framing.HeaderArithmetic | ts/src/tcp-transport.ts:28-35 | the header is 8 * (N / 2 + 1) bytes, padded exactly for even N, with every size inside |
| Framing.RejectedExactly | ts/src/tcp-transport.ts:38-49 | a fully received header is rejected with an array-length error if and only if the count is 2^32, and with a read-length error if and only if it is less and all declared sizes are zero |
| Framing.WordBounds | ts/src/tcp-transport.ts:43-46 | the loop's total of words is at most 2^53 for every size table of N entries if and only if N is at most 2^21 |
| Framing.ReceiveBounds | ts/src/tcp-transport.ts:43-47 | the byte total stays below 2^53 for every size table of N entries if and only if N is at most 2^18 |
| Framing.FrameExample | ts/src/tcp-transport.ts:20-59 | the bytes of a frame with one segment, and of one with two and padding |
| Framing.FrameReceived | ts/src/tcp-transport.ts:20-59 | a standard frame followed by anything is taken off the stream whole and nothing more; it is received if and only if it carries a word |
| Framing.EmptyMessageExample | ts/src/tcp-transport.ts:61-64 | the message of one empty segment is refused |
| Framing.ReceivedIsFrame | ts/src/tcp-transport.ts:50-54 | whatever is received is a frame of whole-word segments of the declared sizes, and is exactly the bytes consumed |
| Framing.AllValidExactly | ts/src/tcp-transport.ts:20-59 | the streams of the next rows are those of valid packets, any number of them |
| Framing.StreamRoundTrip | ts/src/tcp-transport.ts:20-59 | any sequence of frames comes back in order and no byte of what follows is consumed |
| Framing.FramesArePrefixFree | ts/src/tcp-transport.ts:20-59 | two streams that begin with valid frames and are equal carry the same message, padding and remainder |
| Transport.TCPTransport.ReadBytes | ts/src/tcp-transport.ts:61-73 | the blocking loop gives exactly the next bytes of the stream however it is cut into chunks, refuses length zero, and consumes nothing while it waits |
| Transport.TCPTransport.SizeTableLength | ts/src/tcp-transport.ts:28-35 | the computed table length with padding completes the header |
| Transport.TCPTransport.ReadSizes | ts/src/tcp-transport.ts:38-41 | the array holds the little-endian sizes of the table |
| Transport.TCPTransport.TotalWords | ts/src/tcp-transport.ts:43-46 | the loop computes the sum, and no partial sum exceeds it |
| Transport.TCPTransport.RecvSegments | ts/src/tcp-transport.ts:38-54 | from a complete header on, the result and the bytes consumed are those of the stream receiver |
| Transport.TCPTransport.RecvAfterCount | ts/src/tcp-transport.ts:26-54 | the same from the segment count on |
| Transport.TCPTransport.RecvMessage | ts/src/tcp-transport.ts:20-59 | result and bytes consumed are a function of the stream alone, not of its chunks |
| Transport.ReceiveLoop | ts/src/tcp-transport.ts:20-59 | repeated receives give the receipts and the remainder of the stream receiver, up to the first one that would wait for ever |
| Transport.ReceivePackets | ts/src/tcp-transport.ts:20-73 | frames sent as one stream come out in order, whatever the arrivals, and what follows stays unread |
| Layout.DataSection.Set | go/frames/frames.capnp.go:108-110 | writing the bytes of a value in place replaces exactly its slot by its little-endian bytes |
| Bytes.LittleEndian | ts/src/tcp-transport.ts:40 | byte i of an encoded integer counts multiples of 256 to the power i |
| Records.RationalBytes | go/frames/frames.capnp.go:37-51 | in every language num is bytes 0 to 3 and den bytes 4 to 7, and writing one keeps every other byte |
| Records.AudioFrameBytes | rust/src/schema/frames_capnp.rs:194-211 | numSamples is bytes 0 to 3, channels 4 and 5, streamId 8 to 11, and writing one keeps every other byte |
| Records.VideoFrameBytes | rust/src/schema/frames_capnp.rs:394-415 | width is bytes 0 to 3, height 4 to 7, pixelFormat 8 and 9, streamId 12 to 15, and writing one keeps every other byte |
| Records.ValidWritesExactly | ts/src/frames.capnp.ts:12-59 | the sequences of writes considered are all those of values that fit 16 bits for channels and pixelFormat and 32 bits for the others |
| Records.RecordRefinement | go/frames/frames.capnp.go:104-151 | for every record whose byte offsets and element indexes are the same disjoint places (the type the three schema records are declared with), after any mix of the three languages' setters every getter of each language returns the last value written to its field |
| Records.PixelFormatBytes | rust/src/schema/frames_capnp.rs:409-411 | the format is rgba if bytes 8 and 9 are zero, and otherwise the code they hold, least significant byte first |
| Records.PixelFormatRefinement | rust/src/schema/frames_capnp.rs:409-411 | Rust's checked getter reports a code outside the schema exactly when the last code written is not rgba's, and then another language wrote it or it was there before |
| ExpressionLayout.SetterBytes | go/calculator/calculator.capnp.go:228-319 | in every language a literal is written to bytes 0 to 7, a parameter to 0 to 3, the tag of each member to 8 and 9, and every other byte is kept; storing a function or arguments writes no data byte |
| ExpressionLayout.ReaderBytes | ts/src/calculator.capnp.ts:10-74 | every reader takes the tag from bytes 8 and 9, a literal from 0 to 7, a parameter from 0 to 3, an earlier result or a function from pointer 0 and arguments in order from pointer 1; a capability beyond the table is nil and a tag beyond 3 unknown |
| ExpressionLayout.UnionRefinement | rust/src/schema/calculator_capnp.rs:238-258 | after any setters of any languages the tag is the last member's, a scalar member reads its last value, and each pointer holds what was last stored in it or was cleared by Rust's init_call |
| ExpressionLayout.ExpressibleExactly | go/calculator/calculator.capnp.go:228-319 | the trees of the next rows are all those with 64-bit literals and 32-bit parameters, and no nil result unless the language is Go |
| ExpressionLayout.BuildReads | go/calculator/calculator.capnp.go:218-336 | a tree built over any prior struct reads back, up to what the program does not store at the root and the language does not clear |
| ExpressionLayout.TreeRoundTrip | ts/src/calculator.capnp.ts:10-74 | every tree built in a fresh struct in one language, by a program that stores nil functions and empty lists or does not, is read as the same tree by each language |
| ExpressionLayout.ReuseRoundTrip | ts/src/calculator.capnp.ts:66-71 | over a used struct the tree reads back if and only if it is not a call written in Go or TypeScript that leaves a set client or a non-empty list in place |
| ExpressionLayout.ThoroughRoundTrip | go/calculator/calculator.capnp.go:272-319 | for a program that stores all its language can store, if and only if it is not a TypeScript call without a function above a set client |
| ExpressionLayout.LeftoverExample | ts/src/calculator.capnp.ts:49-69 | setting an earlier result and then a call without a function reads as a call of that result, in TypeScript and, when the nil function is skipped, in Go |
| ExpressionLayout.StaleListExample | go/calculator/calculator.capnp.go:273-319 | a call without arguments that makes no empty list reads with the arguments of the call before it, in Go and TypeScript |
| ExpressionLayout.ExpressionBuilder.Set | go/calculator/calculator.capnp.go:228-319 | each setter, writing bytes and pointers in place, has the effect the refinement theorems are about |

## Left out

- Server.CalculatorServer.Evaluate: requests are answered one at a time in the class; answers in other orders are the subject of `Session`, on values.
- ExpressionLayout.BuildReads: trees are values, so two builders of the same list element (aliasing) are not modelled; single structs are also built in place.
- Transport.TCPTransport.RecvMessage: the sum of sizes is an exact integer, which is what the float64 loop computes for up to 2^21 segments (`Framing.WordBounds`); beyond that rounding, Node's own limits on `socket.read` lengths, the end of the stream in the middle of a frame and overlapping calls are not modelled.
- Client functions that re-enter the server, resolve to a server function or keep state: a callback is a pure function of its arguments.
- Session.ScheduleIndependence: fixes that a call looks at its function before its arguments; `Precedence` and `Determinacy` prove what holds, and exactly when all of it holds, if the RPC library chooses.
- IEEE rounding, NaN and infinities: operators are arbitrary, and exactness is assumed only where a range is proved.
- The audio/video union of `Frame`, its pointers and its data blobs: a two-member copy of the `Expression` union.
- `Rational` pointers and lists inside frames: pointer encoding belongs to the Cap'n Proto library.
- The remaining fixed programs of `doClient`: instances of what is proved for all expressions.
- Sockets, connection set-up, logging, command lines, `sendMessage`'s encoder, parsing a received frame into a message, and the RPC connection.
- `Queue`, imported by ts/test/unit/queue.ts, is not part of this model.
