/** When the server calls back to the client, and in which order.

    The reference is a stack machine that runs a flat program from left to right and stops at the
    first instruction that fails. `Compile` lists an expression's nodes in post-order, with the
    bodies of defined functions expanded in place. */
module Trace {
  import opened Wrappers
  import opened Calculator

  /** One call back to client function `id`. */
  datatype Invocation<+N> = Invocation(id: nat, args: seq<N>)

  datatype Traced<+N, +T> = Traced(outcome: Outcome<T>, calls: seq<Invocation<N>>)

  // ---------------------------------------------------------------------------------------
  // The evaluator, recording the calls it makes

  function Run<N>(w: World<N>, t: Table<N>, e: Expr<N>, params: Option<seq<N>>): Traced<N, N>
    requires WellFounded(t) && Bound(e) <= |t|
    decreases 2 * Bound(e), e, 1
  {
    if e.Call? && Callee(t, e.f).Ok? then
      var vs := RunArgs(w, t, e.args, params);
      if vs.outcome.Ok? then
        var r := RunApply(w, t, e.f.id, vs.outcome.value);
        Traced(r.outcome, vs.calls + r.calls)
      else Traced(vs.outcome.PropagateFailure(), vs.calls)
    else Traced(Eval(w, t, e, params), [])
  }

  function RunArgs<N>(w: World<N>, t: Table<N>, args: seq<Expr<N>>, params: Option<seq<N>>): Traced<N, seq<N>>
    requires WellFounded(t) && BoundArgs(args) <= |t|
    decreases 2 * BoundArgs(args), args, 0
  {
    if args == [] then Traced(Ok([]), [])
    else
      var v := Run(w, t, args[0], params);
      if v.outcome.Ok? then
        var vs := RunArgs(w, t, args[1..], params);
        Traced(if vs.outcome.Ok? then Ok([v.outcome.value] + vs.outcome.value) else vs.outcome,
               v.calls + vs.calls)
      else Traced(v.outcome.PropagateFailure(), v.calls)
  }

  function RunApply<N>(w: World<N>, t: Table<N>, id: nat, vs: seq<N>): Traced<N, N>
    requires WellFounded(t) && id < |t| && Callable(t[id])
    decreases 2 * id + 1
  {
    match t[id]
    case Base(_) => Traced(Apply(w, t, id, vs), [])
    case Defined(arity, body) =>
      if |vs| == arity then Run(w, t, body, Some(vs)) else Traced(Apply(w, t, id, vs), [])
    case Callback => Traced(Apply(w, t, id, vs), [Invocation(id, vs)])
  }

  /** Recording changes no outcome. */
  lemma {:induction false} RunIsEval<N>(w: World<N>, t: Table<N>, e: Expr<N>, params: Option<seq<N>>)
    requires WellFounded(t) && Bound(e) <= |t|
    ensures Run(w, t, e, params).outcome == Eval(w, t, e, params)
    decreases 2 * Bound(e), e, 1
  {
    if e.Call? && Callee(t, e.f).Ok? {
      RunArgsIsEvalArgs(w, t, e.args, params);
      var vs := EvalArgs(w, t, e.args, params);
      if vs.Ok? && t[e.f.id].Defined? && |vs.value| == t[e.f.id].arity {
        RunIsEval(w, t, t[e.f.id].body, Some(vs.value));
      }
    }
  }

  lemma {:induction false} RunArgsIsEvalArgs<N>(w: World<N>, t: Table<N>, args: seq<Expr<N>>, params: Option<seq<N>>)
    requires WellFounded(t) && BoundArgs(args) <= |t|
    ensures RunArgs(w, t, args, params).outcome == EvalArgs(w, t, args, params)
    decreases 2 * BoundArgs(args), args, 0
  {
    if args != [] {
      RunIsEval(w, t, args[0], params);
      RunArgsIsEvalArgs(w, t, args[1..], params);
    }
  }

  // ---------------------------------------------------------------------------------------
  // The machine

  datatype Instr<+N> =
    | Push(n: N)
    | Fail(error: Error)
    | Wait
    | Load(k: nat)
    | Operate(op: Operator, argc: nat)
    | Invoke(id: nat, argc: nat)
    | Enter(arity: int, argc: nat)
    | Leave

  /** `Crash` is a malformed program: an empty stack or no frame. */
  datatype Halt<+N> = Crash | Halt(outcome: Outcome<N>, calls: seq<Invocation<N>>) {
    function After(earlier: seq<Invocation<N>>): Halt<N> {
      if Crash? then Crash else Halt(outcome, earlier + calls)
    }
  }

  function Execute<N>(w: World<N>, code: seq<Instr<N>>, frames: seq<Option<seq<N>>>, stack: seq<N>): Halt<N>
    decreases |code|
  {
    if code == [] then
      if |stack| == 1 then Halt(Ok(stack[0]), []) else Crash
    else if frames == [] then Crash
    else
      var rest, top := code[1..], frames[|frames| - 1];
      match code[0]
      case Push(n) => Execute(w, rest, frames, stack + [n])
      case Fail(error) => Halt(Err(error), [])
      case Wait => Halt(Blocked, [])
      case Load(k) =>
        if top.None? then Halt(Err(OutsideFunction(k)), [])
        else if k >= |top.value| then Halt(Err(ParameterOutOfRange(k, |top.value|)), [])
        else Execute(w, rest, frames, stack + [top.value[k]])
      case Operate(op, argc) =>
        if |stack| < argc then Crash
        else if argc != 2 then Halt(Err(WrongArity(2, argc)), [])
        else
          var base := |stack| - 2;
          Execute(w, rest, frames, stack[..base] + [w.op(op, stack[base], stack[base + 1])])
      case Invoke(id, argc) =>
        if |stack| < argc then Crash
        else
          var base := |stack| - argc;
          var call := Invocation(id, stack[base..]);
          (match w.callback(id, call.args)
           case Answer(n) => Execute(w, rest, frames, stack[..base] + [n]).After([call])
           case Refusal(reason) => Halt(Err(CallbackRefused(reason)), [call]))
      case Enter(arity, argc) =>
        if |stack| < argc then Crash
        else if argc != arity then Halt(Err(WrongArity(arity, argc)), [])
        else
          var base := |stack| - argc;
          Execute(w, rest, frames + [Some(stack[base..])], stack[..base])
      case Leave => Execute(w, rest, frames[..|frames| - 1], stack)
  }

  /** What an outcome known in advance compiles to. */
  function Known<N>(o: Outcome<N>): Instr<N> {
    match o
    case Ok(n) => Push(n)
    case Err(error) => Fail(error)
    case Blocked => Wait
  }

  function Compile<N>(t: Table<N>, e: Expr<N>): seq<Instr<N>>
    requires WellFounded(t) && Bound(e) <= |t|
    decreases 2 * Bound(e), e, 1
  {
    match e
    case Literal(n) => [Push(n)]
    case PreviousResult(v) => [Known(Read(t, v))]
    case Parameter(k) => [Load(k)]
    case Call(f, args) =>
      var callee := Callee(t, f);
      if callee.Ok? then CompileArgs(t, args) + CompileCall(t, callee.value, |args|)
      else [Known(callee.PropagateFailure())]
    case Unknown(tag) => [Fail(UnknownExpression(tag))]
  }

  function CompileArgs<N>(t: Table<N>, args: seq<Expr<N>>): seq<Instr<N>>
    requires WellFounded(t) && BoundArgs(args) <= |t|
    decreases 2 * BoundArgs(args), args, 0
  {
    if args == [] then [] else Compile(t, args[0]) + CompileArgs(t, args[1..])
  }

  function CompileCall<N>(t: Table<N>, id: nat, argc: nat): seq<Instr<N>>
    requires WellFounded(t) && id < |t| && Callable(t[id])
    decreases 2 * id + 1
  {
    match t[id]
    case Base(op) => [Operate(op, argc)]
    case Defined(arity, body) => [Enter(arity, argc)] + Compile(t, body) + [Leave]
    case Callback => [Invoke(id, argc)]
  }

  lemma {:induction false} CompileSound<N>(w: World<N>, t: Table<N>, e: Expr<N>, rest: seq<Instr<N>>,
                                           frames: seq<Option<seq<N>>>, stack: seq<N>)
    requires WellFounded(t) && Bound(e) <= |t| && frames != []
    ensures var r := Run(w, t, e, frames[|frames| - 1]);
            Execute(w, Compile(t, e) + rest, frames, stack) ==
            if r.outcome.Ok? then Execute(w, rest, frames, stack + [r.outcome.value]).After(r.calls)
            else Halt(r.outcome, r.calls)
    decreases 2 * Bound(e), e, 1
  {
    var params := frames[|frames| - 1];
    if e.Call? && Callee(t, e.f).Ok? {
      var tail := CompileCall(t, e.f.id, |e.args|);
      assert Compile(t, e) + rest == CompileArgs(t, e.args) + (tail + rest);
      CompileArgsSound(w, t, e.args, tail + rest, frames, stack);
      RunArgsIsEvalArgs(w, t, e.args, params);
      var vs := RunArgs(w, t, e.args, params);
      if vs.outcome.Ok? {
        CompileCallSound(w, t, e.f.id, vs.outcome.value, rest, frames, stack);
        var r := RunApply(w, t, e.f.id, vs.outcome.value);
        if r.outcome.Ok? {
          AfterTwice(Execute(w, rest, frames, stack + [r.outcome.value]), vs.calls, r.calls);
        }
      }
    } else {
      assert (Compile(t, e) + rest)[1..] == rest;
      AfterNothing(w, rest, frames, stack);
    }
  }

  lemma {:induction false} CompileArgsSound<N>(w: World<N>, t: Table<N>, args: seq<Expr<N>>, rest: seq<Instr<N>>,
                                               frames: seq<Option<seq<N>>>, stack: seq<N>)
    requires WellFounded(t) && BoundArgs(args) <= |t| && frames != []
    ensures var r := RunArgs(w, t, args, frames[|frames| - 1]);
            Execute(w, CompileArgs(t, args) + rest, frames, stack) ==
            if r.outcome.Ok? then Execute(w, rest, frames, stack + r.outcome.value).After(r.calls)
            else Halt(r.outcome.PropagateFailure(), r.calls)
    decreases 2 * BoundArgs(args), args, 0
  {
    if args == [] {
      assert CompileArgs(t, args) + rest == rest && stack + [] == stack;
      AfterNothing(w, rest, frames, stack);
    } else {
      var params := frames[|frames| - 1];
      var tail := CompileArgs(t, args[1..]);
      assert CompileArgs(t, args) + rest == Compile(t, args[0]) + (tail + rest);
      CompileSound(w, t, args[0], tail + rest, frames, stack);
      var v := Run(w, t, args[0], params);
      if v.outcome.Ok? {
        var stack' := stack + [v.outcome.value];
        CompileArgsSound(w, t, args[1..], rest, frames, stack');
        var vs := RunArgs(w, t, args[1..], params);
        if vs.outcome.Ok? {
          assert stack' + vs.outcome.value == stack + ([v.outcome.value] + vs.outcome.value);
          AfterTwice(Execute(w, rest, frames, stack' + vs.outcome.value), v.calls, vs.calls);
        }
      }
    }
  }

  lemma {:induction false} CompileCallSound<N>(w: World<N>, t: Table<N>, id: nat, vs: seq<N>, rest: seq<Instr<N>>,
                                               frames: seq<Option<seq<N>>>, stack: seq<N>)
    requires WellFounded(t) && id < |t| && Callable(t[id]) && frames != []
    ensures var r := RunApply(w, t, id, vs);
            Execute(w, CompileCall(t, id, |vs|) + rest, frames, stack + vs) ==
            if r.outcome.Ok? then Execute(w, rest, frames, stack + [r.outcome.value]).After(r.calls)
            else Halt(r.outcome, r.calls)
    decreases 2 * id + 1
  {
    var code := CompileCall(t, id, |vs|) + rest;
    assert (stack + vs)[|stack|..] == vs && (stack + vs)[..|stack|] == stack;
    if t[id].Defined? {
      var body, frames' := t[id].body, frames + [Some(vs)];
      var tail := [Leave] + rest;
      assert code[1..] == Compile(t, body) + tail;
      if |vs| == t[id].arity {
        CompileSound(w, t, body, tail, frames', stack);
        assert tail[1..] == rest && frames'[..|frames|] == frames;
      }
    } else {
      assert code[1..] == rest;
      AfterNothing(w, rest, frames, stack);
    }
  }

  lemma AfterNothing<N>(w: World<N>, rest: seq<Instr<N>>, frames: seq<Option<seq<N>>>, stack: seq<N>)
    ensures forall s :: Execute(w, rest, frames, s).After([]) == Execute(w, rest, frames, s)
  {
  }

  lemma AfterTwice<N>(h: Halt<N>, first: seq<Invocation<N>>, second: seq<Invocation<N>>)
    ensures h.After(second).After(first) == h.After(first + second)
  {
    if h.Halt? {
      assert first + (second + h.calls) == first + second + h.calls;
    }
  }

  /** The server is the machine: same outcome, same calls back with the same arguments, in the
      same order; the program never crashes. */
  lemma EvaluateIsExecute<N>(w: World<N>, t: Table<N>, e: Expr<N>, params: Option<seq<N>>)
    requires WellFounded(t) && Bound(e) <= |t|
    ensures Execute(w, Compile(t, e), [params], []) == Halt(Eval(w, t, e, params), Run(w, t, e, params).calls)
  {
    CompileSound(w, t, e, [], [params], []);
    RunIsEval(w, t, e, params);
    assert Compile(t, e) + [] == Compile(t, e);
  }

  // ---------------------------------------------------------------------------------------
  // Order

  /** The client functions a program names, in program order. */
  function CallbackOrder<N>(code: seq<Instr<N>>): seq<nat> {
    if code == [] then []
    else (if code[0].Invoke? then [code[0].id] else []) + CallbackOrder(code[1..])
  }

  function Ids<N>(calls: seq<Invocation<N>>): (r: seq<nat>)
    ensures |r| == |calls|
  {
    seq(|calls|, i requires 0 <= i < |calls| => calls[i].id)
  }

  /** All calls but the last were answered, and a refused last call is the reported error. */
  ghost predicate StopsAtRefusal<N, T>(w: World<N>, outcome: Outcome<T>, calls: seq<Invocation<N>>) {
    forall j :: 0 <= j < |calls| ==>
      match w.callback(calls[j].id, calls[j].args)
      case Answer(_) => true
      case Refusal(reason) => j == |calls| - 1 && outcome == Err(CallbackRefused(reason))
  }

  /** The calls of a run that has halted are the program's, in order, as far as it got. */
  ghost predicate InOrder<N>(w: World<N>, code: seq<Instr<N>>, h: Halt<N>) {
    h.Halt? ==>
      && Ids(h.calls) <= CallbackOrder(code)
      && (h.outcome.Ok? ==> Ids(h.calls) == CallbackOrder(code))
      && StopsAtRefusal(w, h.outcome, h.calls)
  }

  lemma InOrderSkip<N>(w: World<N>, code: seq<Instr<N>>, h: Halt<N>)
    requires code != [] && !code[0].Invoke? && InOrder(w, code[1..], h)
    ensures InOrder(w, code, h)
  {
    assert CallbackOrder(code) == [] + CallbackOrder(code[1..]);
  }

  lemma InOrderStop<N>(w: World<N>, code: seq<Instr<N>>, h: Halt<N>)
    requires h.Halt? ==> !h.outcome.Ok? && h.calls == []
    ensures InOrder(w, code, h)
  {
  }

  lemma InOrderCall<N>(w: World<N>, code: seq<Instr<N>>, call: Invocation<N>, h: Halt<N>)
    requires code != [] && code[0].Invoke? && code[0].id == call.id && InOrder(w, code[1..], h)
    requires w.callback(call.id, call.args).Answer?
    ensures InOrder(w, code, h.After([call]))
  {
    if h.Halt? {
      assert Ids([call] + h.calls) == [call.id] + Ids(h.calls);
    }
  }

  lemma InOrderRefusal<N>(w: World<N>, code: seq<Instr<N>>, call: Invocation<N>)
    requires code != [] && code[0].Invoke? && code[0].id == call.id
    requires w.callback(call.id, call.args).Refusal?
    ensures InOrder(w, code, Halt(Err(CallbackRefused(w.callback(call.id, call.args).reason)), [call]))
  {
    assert Ids([call]) == [call.id];
  }

  /** What the next instruction leads to: a stop without a call, or the rest of the program. */
  lemma {:induction false} ExecuteInOrder<N>(w: World<N>, code: seq<Instr<N>>, frames: seq<Option<seq<N>>>,
                                             stack: seq<N>)
    ensures InOrder(w, code, Execute(w, code, frames, stack))
    decreases |code|, 1
  {
    if code != [] && frames != [] {
      if code[0].Invoke? {
        InvokeInOrder(w, code, frames, stack);
      } else {
        SilentInOrder(w, code, frames, stack);
      }
    }
  }

  lemma {:induction false} SilentInOrder<N>(w: World<N>, code: seq<Instr<N>>, frames: seq<Option<seq<N>>>,
                                            stack: seq<N>)
    requires code != [] && frames != [] && !code[0].Invoke?
    ensures InOrder(w, code, Execute(w, code, frames, stack))
    decreases |code|, 0
  {
    var rest, top, n := code[1..], frames[|frames| - 1], |stack|;
    var h := Execute(w, code, frames, stack);
    var frames', stack', go := frames, stack, true;
    match code[0] {
      case Push(v) => stack' := stack + [v];
      case Load(k) =>
        go := top.Some? && k < |top.value|;
        stack' := if go then stack + [top.value[k]] else stack;
      case Operate(op, argc) =>
        go := argc == 2 <= n;
        stack' := if go then stack[..n - 2] + [w.op(op, stack[n - 2], stack[n - 1])] else stack;
      case Enter(arity, argc) =>
        go := argc == arity && argc <= n;
        frames' := if go then frames + [Some(stack[n - argc..])] else frames;
        stack' := if go then stack[..n - argc] else stack;
      case Leave => frames' := frames[..|frames| - 1];
      case _ => go := false;
    }
    if go {
      assert h == Execute(w, rest, frames', stack');
      ExecuteInOrder(w, rest, frames', stack');
      InOrderSkip(w, code, h);
    } else {
      InOrderStop(w, code, h);
    }
  }

  lemma {:induction false} InvokeInOrder<N>(w: World<N>, code: seq<Instr<N>>, frames: seq<Option<seq<N>>>,
                                            stack: seq<N>)
    requires code != [] && frames != [] && code[0].Invoke?
    ensures InOrder(w, code, Execute(w, code, frames, stack))
    decreases |code|, 0
  {
    if code[0].argc <= |stack| {
      var base := |stack| - code[0].argc;
      var call := Invocation(code[0].id, stack[base..]);
      var reply := w.callback(call.id, call.args);
      if reply.Answer? {
        var stack' := stack[..base] + [reply.value];
        ExecuteInOrder(w, code[1..], frames, stack');
        InOrderCall(w, code, call, Execute(w, code[1..], frames, stack'));
      } else {
        InOrderRefusal(w, code, call);
      }
    }
  }

  /** A concrete case: the first argument's call is made first and its reply is the first operand. */
  lemma OrderExample<N>(w: World<N>, x: N, y: N)
    requires w.callback(0, []) == Answer(x) && w.callback(1, []) == Answer(y)
    ensures var t: Table<N> := [Callback, Callback, Base(Subtract)];
            var r := Run(w, t, Call(Cap(2), [Call(Cap(0), []), Call(Cap(1), [])]), None);
            r == Traced(Ok(w.op(Subtract, x, y)), [Invocation(0, []), Invocation(1, [])])
  {
    var t: Table<N> := [Callback, Callback, Base(Subtract)];
    var a: Expr<N>, b: Expr<N> := Call(Cap(0), []), Call(Cap(1), []);
    assert Run(w, t, a, None) == Traced(Ok(x), [Invocation(0, [])]);
    assert Run(w, t, b, None) == Traced(Ok(y), [Invocation(1, [])]);
    assert [a, b][1..] == [b] && [b][1..] == [];
    assert RunArgs(w, t, [], None) == Traced(Ok([]), []);
    assert [y] + [] == [y] && [x] + [y] == [x, y];
    assert RunArgs(w, t, [b], None) == Traced(Ok([y]), [Invocation(1, [])]);
    assert RunArgs(w, t, [a, b], None) == Traced(Ok([x, y]), [Invocation(0, []), Invocation(1, [])]);
  }

  /** Client functions are called in left-to-right post-order with defined bodies expanded in
      place: once per node on success, a prefix of that order on failure, and a refusal ends the
      evaluation with its own error. */
  lemma CallbackTrace<N>(w: World<N>, t: Table<N>, e: Expr<N>, params: Option<seq<N>>)
    requires WellFounded(t) && Bound(e) <= |t|
    ensures var r := Run(w, t, e, params);
            && r.outcome == Eval(w, t, e, params)
            && Ids(r.calls) <= CallbackOrder(Compile(t, e))
            && (r.outcome.Ok? ==> Ids(r.calls) == CallbackOrder(Compile(t, e)))
            && (forall j :: 0 <= j < |r.calls| && w.callback(r.calls[j].id, r.calls[j].args).Refusal? ==>
                  && j == |r.calls| - 1
                  && r.outcome == Err(CallbackRefused(w.callback(r.calls[j].id, r.calls[j].args).reason)))
  {
    EvaluateIsExecute(w, t, e, params);
    RunIsEval(w, t, e, params);
    ExecuteInOrder(w, Compile(t, e), [params], []);
  }
}
