/** The server as it runs: capabilities are handed out one after another, and `evaluate` recurses
    over the expression, filling an argument list in place for every call. */
module Server {
  import opened Wrappers
  import opened Calculator
  import opened Session
  import opened Trace

  /** A list of evaluated arguments, followed by the outcome of the rest of the list. */
  function Prepend<N>(vs: seq<N>, rest: Outcome<seq<N>>): Outcome<seq<N>> {
    if rest.Ok? then Ok(vs + rest.value) else rest
  }

  lemma PrependTwice<N>(vs: seq<N>, v: N, rest: Outcome<seq<N>>)
    ensures Prepend(vs, Prepend([v], rest)) == Prepend(vs + [v], rest)
  {
    if rest.Ok? {
      assert vs + ([v] + rest.value) == vs + [v] + rest.value;
    }
  }

  /** The first `i` arguments have the values `vs` and made `calls`; the rest is still to come. */
  ghost predicate Filled<N>(w: World<N>, t: Table<N>, args: seq<Expr<N>>, params: Option<seq<N>>,
                            i: nat, vs: seq<N>, calls: seq<Invocation<N>>)
    requires WellFounded(t) && BoundArgs(args) <= |t| && i <= |args|
  {
    && BoundArgs(args[i..]) <= |t|
    && EvalArgs(w, t, args, params) == Prepend(vs, EvalArgs(w, t, args[i..], params))
    && RunArgs(w, t, args, params).calls == calls + RunArgs(w, t, args[i..], params).calls
  }

  lemma FilledStart<N>(w: World<N>, t: Table<N>, args: seq<Expr<N>>, params: Option<seq<N>>)
    requires WellFounded(t) && BoundArgs(args) <= |t|
    ensures Filled(w, t, args, params, 0, [], [])
  {
    assert args[0..] == args;
    var rest := EvalArgs(w, t, args, params);
    assert rest.Ok? ==> [] + rest.value == rest.value;
  }

  /** One more argument: it has a value and the list goes on, or the whole list has its outcome. */
  lemma FilledStep<N>(w: World<N>, t: Table<N>, args: seq<Expr<N>>, params: Option<seq<N>>,
                      i: nat, vs: seq<N>, calls: seq<Invocation<N>>)
    requires WellFounded(t) && BoundArgs(args) <= |t| && i < |args| && Filled(w, t, args, params, i, vs, calls)
    ensures Bound(args[i]) <= BoundArgs(args)
    ensures var v, made := Eval(w, t, args[i], params), Run(w, t, args[i], params).calls;
            if v.Ok? then Filled(w, t, args, params, i + 1, vs + [v.value], calls + made)
            else
              && EvalArgs(w, t, args, params) == v.PropagateFailure()
              && RunArgs(w, t, args, params).calls == calls + made
  {
    BoundArgsAt(args, i);
    var tail := args[i..];
    assert tail[0] == args[i] && tail[1..] == args[i + 1..];
    RunIsEval(w, t, args[i], params);
    var v, made := Eval(w, t, args[i], params), Run(w, t, args[i], params).calls;
    if v.Ok? {
      PrependTwice(vs, v.value, EvalArgs(w, t, args[i + 1..], params));
      var rest := RunArgs(w, t, args[i + 1..], params).calls;
      assert calls + (made + rest) == calls + made + rest;
    }
  }

  lemma FilledEnd<N>(w: World<N>, t: Table<N>, args: seq<Expr<N>>, params: Option<seq<N>>,
                     vs: seq<N>, calls: seq<Invocation<N>>)
    requires WellFounded(t) && BoundArgs(args) <= |t| && Filled(w, t, args, params, |args|, vs, calls)
    ensures EvalArgs(w, t, args, params) == Ok(vs) && RunArgs(w, t, args, params).calls == calls
  {
    assert args[|args|..] == [];
    assert vs + [] == vs && calls + [] == calls;
  }

  class CalculatorServer<N> {
    const w: World<N>
    const zero: N                       // what a new list of numbers is filled with
    var table: Table<N>
    ghost var reqs: seq<Request<N>>     // the requests answered so far
    ghost var log: seq<Invocation<N>>   // the calls made back to the client so far

    ghost predicate Valid()
      reads this
    {
      ValidSession(reqs) && table == Sequential(w, reqs)
    }

    constructor (w: World<N>, zero: N)
      ensures Valid() && table == [] && reqs == [] && log == []
      ensures this.w == w && this.zero == zero
    {
      this.w, this.zero := w, zero;
      table, reqs, log := [], [], [];
    }

    /** Hand out one more capability, the answer to request `r`. */
    method Append(entry: Entry<N>, ghost r: Request<N>) returns (id: nat)
      requires Valid() && RequestBound(r) <= |table| && entry == Resolve(w, table, r)
      modifies this`table, this`reqs
      ensures Valid() && id == |old(table)|
      ensures table == old(table) + [entry] && reqs == old(reqs) + [r]
    {
      id := |table|;
      table := table + [entry];
      reqs := reqs + [r];
      assert reqs[..id] == old(reqs) && reqs[id] == r;
    }

    /** calculatorServer.evaluate (go/main.go:96-155); `calls` are the calls made back to the client
        on the way. */
    method EvaluateExpr(expr: Expr<N>, params: Option<seq<N>>) returns (r: Outcome<N>, ghost calls: seq<Invocation<N>>)
      requires Valid() && Bound(expr) <= |table|
      ensures r == Eval(w, table, expr, params)
      ensures calls == Run(w, table, expr, params).calls
      decreases 2 * Bound(expr), expr, 1
    {
      calls := [];
      match expr
      case Literal(n) => r := Ok(n);
      case PreviousResult(v) => r := ReadValue(v);
      case Parameter(k) =>
        if params.None? {
          r := Err(OutsideFunction(k));
        } else if k >= |params.value| {
          r := Err(ParameterOutOfRange(k, |params.value|));
        } else {
          r := Ok(params.value[k]);
        }
      case Call(f, args) =>
        var callee := Callee(table, f);
        if !callee.Ok? {
          return callee.PropagateFailure(), calls;
        }
        RunArgsIsEvalArgs(w, table, args, params);
        var pparams;
        pparams, calls := EvaluateParams(args, params);
        if !pparams.Ok? {
          return pparams.PropagateFailure(), calls;
        }
        ghost var within;
        r, within := CallFunction(callee.value, pparams.value);
        calls := calls + within;
      case Unknown(tag) => r := Err(UnknownExpression(tag));
    }

    /** The argument list of a call, filled in place until an argument fails
        (go/main.go:127-145). */
    method EvaluateParams(args: seq<Expr<N>>, params: Option<seq<N>>)
      returns (r: Outcome<array<N>>, ghost calls: seq<Invocation<N>>)
      requires Valid() && BoundArgs(args) <= |table|
      ensures r.Ok? ==> EvalArgs(w, table, args, params) == Ok(r.value[..])
      ensures !r.Ok? ==> EvalArgs(w, table, args, params) == r.PropagateFailure()
      ensures calls == RunArgs(w, table, args, params).calls
      decreases 2 * BoundArgs(args), args, 0
    {
      calls := [];
      var pparams := new N[|args|](_ => zero);
      var i := 0;
      FilledStart(w, table, args, params);
      assert pparams[..0] == [];
      while i < |args|
        invariant 0 <= i <= |args|
        invariant Filled(w, table, args, params, i, pparams[..i], calls)
      {
        FilledStep(w, table, args, params, i, pparams[..i], calls);
        var v;
        ghost var made;
        v, made := EvaluateExpr(args[i], params);
        calls := calls + made;
        if !v.Ok? {
          return v.PropagateFailure(), calls;
        }
        pparams[i] := v.value;
        assert pparams[..i + 1] == pparams[..i] + [v.value];
        i := i + 1;
      }
      assert pparams[..i] == pparams[..];
      FilledEnd(w, table, args, params, pparams[..], calls);
      return Ok(pparams), calls;
    }

    /** functionServer.Call: an operator, a defined function or the client's own
        (go/main.go:73-93, 178-197). */
    method CallFunction(id: nat, cparams: array<N>) returns (r: Outcome<N>, ghost calls: seq<Invocation<N>>)
      requires Valid() && id < |table| && Callable(table[id])
      ensures r == Apply(w, table, id, cparams[..])
      ensures calls == RunApply(w, table, id, cparams[..]).calls
      decreases 2 * id + 1
    {
      calls := [];
      match table[id]
      case Base(op) =>
        if cparams.Length != 2 {
          r := Err(WrongArity(2, cparams.Length));
        } else {
          r := Ok(w.op(op, cparams[0], cparams[1]));
        }
      case Defined(arity, body) =>
        if cparams.Length != arity {
          r := Err(WrongArity(arity, cparams.Length));
        } else {
          r, calls := EvaluateExpr(body, Some(cparams[..]));
        }
      case Callback =>
        var reply := w.callback(id, cparams[..]);
        calls := [Invocation(id, cparams[..])];
        match reply
        case Answer(n) => r := Ok(n);
        case Refusal(reason) => r := Err(CallbackRefused(reason));
    }

    /** valueServer.Read, through whatever capability the caller holds (go/main.go:58-61). The
        result of an evaluate request reads as the outcome its expression had when the request was
        answered, however many requests came after; nothing else reads as a number. */
    method ReadValue(v: CapRef) returns (r: Outcome<N>)
      requires Valid() && RefBound(v) <= |table|
      ensures r == Read(table, v)
      ensures v.Cap? && reqs[v.id].Evaluate? ==>
                r == Eval(w, Sequential(w, reqs[..v.id]), reqs[v.id].expr, None)
      ensures r.Ok? ==> v.Cap? && reqs[v.id].Evaluate?
      ensures !r.Blocked?
    {
      if v.Cap? {
        SequentialSolves(w, reqs, v.id);
      }
      match v
      case Null => return Err(NullCapability);
      case Cap(id) =>
        match table[id]
        case Value(n) => return Ok(n);
        case Broken(error) => return Err(error);
        case Pending => return Blocked;
        case _ => return Err(WrongInterface);
    }

    /** go/main.go:157-172 */
    method Evaluate(expr: Expr<N>) returns (result: nat)
      requires Valid() && Bound(expr) <= |table|
      modifies this
      ensures Valid() && reqs == old(reqs) + [Request.Evaluate(expr)]
      ensures result == |old(table)|
      ensures table == old(table) + [Settle(Eval(w, old(table), expr, None))]
      ensures !table[result].Pending?
      ensures log == old(log) + Run(w, old(table), expr, None).calls
    {
      var val;
      ghost var calls;
      val, calls := EvaluateExpr(expr, None);
      result := Append(Settle(val), Request.Evaluate(expr));
      log := log + calls;
      SequentialSolves(w, reqs, result);
    }

    /** go/main.go:65-94 */
    method DefFunction(paramCount: int, body: Expr<N>) returns (func: nat)
      requires Valid() && Bound(body) <= |table|
      modifies this
      ensures Valid() && reqs == old(reqs) + [Request.DefFunction(paramCount, body)] && log == old(log)
      ensures func == |old(table)|
      ensures table == old(table) + [Defined(paramCount, body)]
    {
      func := Append(Defined(paramCount, body), Request.DefFunction(paramCount, body));
    }

    /** go/main.go:206-213 */
    method GetOperator(code: nat) returns (func: nat)
      requires Valid()
      modifies this
      ensures Valid() && reqs == old(reqs) + [Request.GetOperator(code)] && log == old(log)
      ensures func == |old(table)|
      ensures table == old(table) + [match code
                                     case 0 => Base(Add)
                                     case 1 => Base(Subtract)
                                     case 2 => Base(Multiply)
                                     case 3 => Base(Divide)
                                     case _ => Broken(OperatorNotFound(code))]
    {
      var op := OperatorOf(code);
      if op.None? {
        func := Append(Broken(OperatorNotFound(code)), Request.GetOperator(code));
      } else {
        func := Append(Base(op.value), Request.GetOperator(code));
      }
    }

    /** The client passes a function of its own (ts/src/client.ts:276-286). */
    method Export() returns (func: nat)
      requires Valid()
      modifies this
      ensures Valid() && reqs == old(reqs) + [Request.Export] && log == old(log)
      ensures func == |old(table)|
      ensures table == old(table) + [Callback]
    {
      func := Append(Callback, Request.Export);
    }
  }
}
