/** When the reported error does not depend on the order in which calls look at their function and
    their arguments: the exact condition for an expression, read off its shape, and for a session
    under every schedule. */
module Determinacy {
  import opened Wrappers
  import opened Calculator
  import opened Session
  import opened StaticCheck
  import opened Precedence

  // ---------------------------------------------------------------------------------------
  // The errors an expression may report

  function ErrorOf<T>(o: Outcome<T>): set<Error> {
    if o.Err? then {o.error} else {}
  }

  /** Every error some order reports. Only shapes are looked at. */
  function Failures<N>(t: Table<N>, e: Expr<N>, arity: Option<nat>): set<Error>
    requires WellFounded(t) && Bound(e) <= |t|
    decreases 2 * Bound(e), e, 1
  {
    match e
    case Literal(_) => {}
    case PreviousResult(v) => ErrorOf(Read(t, v))
    case Parameter(k) =>
      if arity.None? then {OutsideFunction(k)}
      else if k >= arity.value then {ParameterOutOfRange(k, arity.value)}
      else {}
    case Call(f, args) =>
      if Callee(t, f).Ok? && AcceptsArgs(t, args, arity) then CallFailures(t, f.id, |args|)
      else ErrorOf(Callee(t, f)) + ArgFailures(t, args, arity)
    case Unknown(tag) => {UnknownExpression(tag)}
  }

  function ArgFailures<N>(t: Table<N>, args: seq<Expr<N>>, arity: Option<nat>): set<Error>
    requires WellFounded(t) && BoundArgs(args) <= |t|
    decreases 2 * BoundArgs(args), args, 0
  {
    if args == [] then {}
    else Failures(t, args[0], arity) + if Accepts(t, args[0], arity) then ArgFailures(t, args[1..], arity) else {}
  }

  function CallFailures<N>(t: Table<N>, id: nat, n: nat): set<Error>
    requires WellFounded(t) && id < |t| && Callable(t[id])
    decreases 2 * id + 1
  {
    match t[id]
    case Base(_) => if n == 2 then {} else {WrongArity(2, n)}
    case Defined(arity, body) => if n == arity then Failures(t, body, Some(n)) else {WrongArity(arity, n)}
    case Callback => {}
  }

  /** Where an error of a call comes from: its function, its arguments, or the function's body. */
  lemma CallErrors<N(!new)>(w: World<N>, t: Table<N>, f: CapRef, args: seq<Expr<N>>, params: Option<seq<N>>, x: Error)
    requires WellFounded(t) && Bound(Call(f, args)) <= |t|
    ensures var vs := EvalArgs(w, t, args, params);
            May(w, t, Call(f, args), params, Err(x)) <==>
            || Callee(t, f) == Err(x)
            || (!vs.Ok? && MayArgs(w, t, args, params, Err(x)))
            || (Callee(t, f).Ok? && vs.Ok? && MayApply(w, t, f.id, vs.value, Err(x)))
  {
    EvalArgsMay(w, t, args, params);
    if May(w, t, Call(f, args), params, Err(x)) && Callee(t, f) != Err(x) {
      var a := CallCases(w, t, f, args, params, Err(x));
      MayArgsValue(w, t, args, params, a);
    }
  }

  /** Where an error of an argument list comes from: the first argument, or the others if it has a
      value. */
  lemma ArgsErrors<N(!new)>(w: World<N>, t: Table<N>, args: seq<Expr<N>>, params: Option<seq<N>>, x: Error)
    requires WellFounded(t) && BoundArgs(args) <= |t| && args != []
    ensures MayArgs(w, t, args, params, Err(x)) <==>
            || May(w, t, args[0], params, Err(x))
            || (Eval(w, t, args[0], params).Ok? && MayArgs(w, t, args[1..], params, Err(x)))
  {
    var first := Eval(w, t, args[0], params);
    EvalMay(w, t, args[0], params);
    if MayArgs(w, t, args, params, Err(x)) {
      var v, rest := ArgsCases(w, t, args, params, Err(x));
      MayValue(w, t, args[0], params, v);
    }
    if first.Ok? && MayArgs(w, t, args[1..], params, Err(x)) {
      assert Err(x) == Cons(first.value, Err(x));
    }
  }

  /** The set is exact, over promises as well: with client functions that answer, an error may be
      reported if and only if it is in the set. */
  lemma {:induction false} FailuresExact<N(!new)>(w: World<N>, t: Table<N>, e: Expr<N>, params: Option<seq<N>>,
                                                  x: Error)
    requires WellFounded(t) && Bound(e) <= |t| && CallbacksAnswer(w, t)
    ensures May(w, t, e, params, Err(x)) <==> x in Failures(t, e, Count(params))
    decreases 2 * Bound(e), e, 1
  {
    match e
    case Call(f, args) =>
      ArgFailuresExact(w, t, args, params, x);
      ExactSuccessArgs(w, t, args, params);
      CallErrors(w, t, f, args, params, x);
      var vs := EvalArgs(w, t, args, params);
      if Callee(t, f).Ok? && vs.Ok? {
        CallFailuresExact(w, t, f.id, vs.value, x);
      }
    case _ =>
  }

  lemma {:induction false} ArgFailuresExact<N(!new)>(w: World<N>, t: Table<N>, args: seq<Expr<N>>,
                                                     params: Option<seq<N>>, x: Error)
    requires WellFounded(t) && BoundArgs(args) <= |t| && CallbacksAnswer(w, t)
    ensures MayArgs(w, t, args, params, Err(x)) <==> x in ArgFailures(t, args, Count(params))
    decreases 2 * BoundArgs(args), args, 0
  {
    if args != [] {
      FailuresExact(w, t, args[0], params, x);
      ArgFailuresExact(w, t, args[1..], params, x);
      ExactSuccess(w, t, args[0], params);
      ArgsErrors(w, t, args, params, x);
    }
  }

  lemma {:induction false} CallFailuresExact<N(!new)>(w: World<N>, t: Table<N>, id: nat, vs: seq<N>, x: Error)
    requires WellFounded(t) && id < |t| && Callable(t[id]) && CallbacksAnswer(w, t)
    ensures MayApply(w, t, id, vs, Err(x)) <==> x in CallFailures(t, id, |vs|)
    decreases 2 * id + 1
  {
    if t[id].Defined? && |vs| == t[id].arity {
      FailuresExact(w, t, t[id].body, Some(vs), x);
    }
  }

  // ---------------------------------------------------------------------------------------
  // One outcome

  ghost predicate Determined<N(!new)>(w: World<N>, t: Table<N>, e: Expr<N>, params: Option<seq<N>>)
    requires WellFounded(t) && Bound(e) <= |t|
  {
    forall o :: May(w, t, e, params, o) ==> o == Eval(w, t, e, params)
  }

  predicate AtMostOne(s: set<Error>) {
    forall x, y :: x in s && y in s ==> x == y
  }

  /** The order of function and arguments can be observed if and only if the shape allows two
      errors. */
  lemma DeterminedByShape<N(!new)>(w: World<N>, t: Table<N>, e: Expr<N>, params: Option<seq<N>>)
    requires WellFounded(t) && Bound(e) <= |t| && Resolved(t, Bound(e)) && CallbacksAnswer(w, t)
    ensures Determined(w, t, e, params) <==> AtMostOne(Failures(t, e, Count(params)))
  {
    var s := Failures(t, e, Count(params));
    forall x
      ensures May(w, t, e, params, Err(x)) <==> x in s
    {
      FailuresExact(w, t, e, params, x);
    }
    if Determined(w, t, e, params) {
      forall x, y | x in s && y in s
        ensures x == y
      {
        assert May(w, t, e, params, Err(x)) && May(w, t, e, params, Err(y));
      }
    }
    if AtMostOne(s) {
      EvalMay(w, t, e, params);
      forall o | May(w, t, e, params, o)
        ensures o == Eval(w, t, e, params)
      {
        MayOneValue(w, t, e, params, o);
        MayOneValue(w, t, e, params, Eval(w, t, e, params));
      }
    }
  }

  /** Every call names a function, through arguments and stored bodies. */
  predicate CallsFunctions<N>(t: Table<N>, e: Expr<N>)
    requires WellFounded(t) && Bound(e) <= |t|
    decreases 2 * Bound(e), e, 1
  {
    e.Call? ==>
      && e.f.Cap? && Callable(t[e.f.id])
      && ArgsCallFunctions(t, e.args)
      && (t[e.f.id].Defined? ==> CallsFunctions(t, t[e.f.id].body))
  }

  predicate ArgsCallFunctions<N>(t: Table<N>, args: seq<Expr<N>>)
    requires WellFounded(t) && BoundArgs(args) <= |t|
    decreases 2 * BoundArgs(args), args, 0
  {
    args != [] ==> CallsFunctions(t, args[0]) && ArgsCallFunctions(t, args[1..])
  }

  lemma {:induction false} ArgsCallFunctionsAt<N>(t: Table<N>, args: seq<Expr<N>>)
    requires WellFounded(t) && BoundArgs(args) <= |t|
    ensures ArgsCallFunctions(t, args) <==>
            forall i :: 0 <= i < |args| ==> Bound(args[i]) <= |t| && CallsFunctions(t, args[i])
  {
    if args != [] {
      ArgsCallFunctionsAt(t, args[1..]);
      assert forall i :: 0 < i < |args| ==> args[i] == args[1..][i - 1];
    }
  }

  /** Node by node; in particular everything the shape checker accepts calls functions only. */
  lemma CallsFunctionsExactly<N>(t: Table<N>, e: Expr<N>, arity: Option<nat>)
    requires WellFounded(t) && Bound(e) <= |t|
    ensures CallsFunctions(t, e) <==>
            match e
            case Call(f, args) =>
              && f.Cap? && (t[f.id].Base? || t[f.id].Defined? || t[f.id].Callback?)
              && (forall i :: 0 <= i < |args| ==> Bound(args[i]) <= |t| && CallsFunctions(t, args[i]))
              && (t[f.id].Defined? ==> CallsFunctions(t, t[f.id].body))
            case _ => true
    ensures Accepts(t, e, arity) ==> CallsFunctions(t, e)
  {
    if e.Call? {
      ArgsCallFunctionsAt(t, e.args);
    }
    AcceptedCallsFunctions(t, e, arity);
  }

  lemma {:induction false} AcceptedCallsFunctions<N>(t: Table<N>, e: Expr<N>, arity: Option<nat>)
    requires WellFounded(t) && Bound(e) <= |t|
    ensures Accepts(t, e, arity) ==> CallsFunctions(t, e)
    decreases 2 * Bound(e), e, 1
  {
    if e.Call? && Accepts(t, e, arity) {
      AcceptedArgsCallFunctions(t, e.args, arity);
      assert AcceptsCount(t, e.f.id, |e.args|);
      if t[e.f.id].Defined? {
        AcceptedCallsFunctions(t, t[e.f.id].body, Some(|e.args|));
      }
    }
  }

  lemma {:induction false} AcceptedArgsCallFunctions<N>(t: Table<N>, args: seq<Expr<N>>, arity: Option<nat>)
    requires WellFounded(t) && BoundArgs(args) <= |t|
    ensures AcceptsArgs(t, args, arity) ==> ArgsCallFunctions(t, args)
    decreases 2 * BoundArgs(args), args, 0
  {
    if args != [] {
      AcceptedCallsFunctions(t, args[0], arity);
      AcceptedArgsCallFunctions(t, args[1..], arity);
    }
  }

  /** Then there is nothing to choose, whether or not client functions answer. */
  lemma {:induction false} CallsFunctionsDetermined<N(!new)>(w: World<N>, t: Table<N>, e: Expr<N>,
                                                             params: Option<seq<N>>, o: Outcome<N>)
    requires WellFounded(t) && Bound(e) <= |t| && CallsFunctions(t, e) && May(w, t, e, params, o)
    ensures o == Eval(w, t, e, params)
    decreases 2 * Bound(e), e, 1
  {
    match e
    case Call(f, args) =>
      var a := CallCases(w, t, f, args, params, o);
      ArgsCallFunctionsDetermined(w, t, args, params, a);
      if a.Ok? && t[f.id].Defined? && |a.value| == t[f.id].arity {
        CallsFunctionsDetermined(w, t, t[f.id].body, Some(a.value), o);
      }
    case _ =>
  }

  lemma {:induction false} ArgsCallFunctionsDetermined<N(!new)>(w: World<N>, t: Table<N>, args: seq<Expr<N>>,
                                                                params: Option<seq<N>>, a: Outcome<seq<N>>)
    requires WellFounded(t) && BoundArgs(args) <= |t| && ArgsCallFunctions(t, args) && MayArgs(w, t, args, params, a)
    ensures a == EvalArgs(w, t, args, params)
    decreases 2 * BoundArgs(args), args, 0
  {
    if args != [] {
      var v, rest := ArgsCases(w, t, args, params, a);
      CallsFunctionsDetermined(w, t, args[0], params, v);
      if v.Ok? {
        ArgsCallFunctionsDetermined(w, t, args[1..], params, rest);
      }
    }
  }

  // ---------------------------------------------------------------------------------------
  // Sessions

  /** In the finished table, every evaluate request has one outcome. */
  ghost predicate AllDetermined<N(!new)>(w: World<N>, reqs: seq<Request<N>>)
    requires ValidSession(reqs)
  {
    forall i :: 0 <= i < |reqs| && reqs[i].Evaluate? ==>
      RequestBound(reqs[i]) <= i && Determined(w, Sequential(w, reqs), reqs[i].expr, None)
  }

  /** Every answer of every schedule, whatever the order inside calls, is the sequential one, errors
      included. */
  ghost predicate AlwaysSequential<N(!new)>(w: World<N>, reqs: seq<Request<N>>)
    requires ValidSession(reqs)
  {
    forall order, tables, k ::
      MayRun(w, reqs, order, tables) && 0 <= k < |tables| ==> Consistent(w, reqs, tables[k])
  }

  lemma {:induction false} DeterminedRun<N(!new)>(w: World<N>, reqs: seq<Request<N>>, order: seq<nat>,
                                                  tables: seq<Table<N>>, k: nat)
    requires ValidSession(reqs) && AllDetermined(w, reqs) && MayRun(w, reqs, order, tables) && k < |tables|
    ensures Consistent(w, reqs, tables[k])
  {
    if k > 0 {
      DeterminedRun(w, reqs, order, tables, k - 1);
      DeterminedStep(w, reqs, tables[k - 1], tables[k], order[k - 1]);
    }
  }

  lemma DeterminedStep<N(!new)>(w: World<N>, reqs: seq<Request<N>>, t: Table<N>, t': Table<N>, i: nat)
    requires ValidSession(reqs) && AllDetermined(w, reqs) && Consistent(w, reqs, t) && MayStep(w, reqs, t, t', i)
    ensures Consistent(w, reqs, t')
  {
    var final := Sequential(w, reqs);
    SequentialSolves(w, reqs, i);
    if reqs[i].Evaluate? {
      var o :| May(w, t, reqs[i].expr, None, o) && t'[i] == Settle(o);
      MayMonotone(w, t, final, reqs[i].expr, None, o);
      assert Determined(w, final, reqs[i].expr, None);
    }
    assert t'[i] == final[i];
  }

  /** The first `n` requests answered, the rest waiting. */
  ghost function Partly<N>(final: Table<N>, n: nat): (t: Table<N>)
    requires n <= |final| && WellFounded(final)
    ensures |t| == |final| && WellFounded(t)
  {
    final[..n] + seq(|final| - n, _ => Pending)
  }

  lemma PartlyStep<N(!new)>(w: World<N>, reqs: seq<Request<N>>, i: nat, o: Outcome<N>)
    requires ValidSession(reqs) && i < |reqs| && RequestBound(reqs[i]) <= i
    requires reqs[i].Evaluate? ==> May(w, Sequential(w, reqs), reqs[i].expr, None, o)
    ensures var final := Sequential(w, reqs);
            var entry := if reqs[i].Evaluate? then Settle(o) else final[i];
            MayStep(w, reqs, Partly(final, i), Partly(final, i)[i := entry], i)
  {
    var final := Sequential(w, reqs);
    var t := Partly(final, i);
    SequentialSolves(w, reqs, i);
    SequentialResolved(w, reqs);
    if reqs[i].Evaluate? {
      MayProceeds(w, final, reqs[i].expr, None, o);
      MayMonotone(w, final, t, reqs[i].expr, None, o);
    }
  }

  lemma {:induction false} PartlyRun<N(!new)>(w: World<N>, reqs: seq<Request<N>>, n: nat)
      returns (order: seq<nat>, tables: seq<Table<N>>)
    requires ValidSession(reqs) && n <= |reqs|
    ensures MayRun(w, reqs, order, tables) && |order| == n && tables[n] == Partly(Sequential(w, reqs), n)
  {
    var final := Sequential(w, reqs);
    if n == 0 {
      order, tables := [], [AllPending(reqs)];
    } else {
      order, tables := PartlyRun(w, reqs, n - 1);
      var i := n - 1;
      assert RequestBound(reqs[i]) <= i;
      SequentialSolves(w, reqs, i);
      if reqs[i].Evaluate? {
        EvalMay(w, final, reqs[i].expr, None);
        PartlyStep(w, reqs, i, Eval(w, final, reqs[i].expr, None));
      } else {
        PartlyStep(w, reqs, i, Blocked);
      }
      assert Partly(final, n) == Partly(final, i)[i := final[i]];
      order, tables := order + [i], tables + [Partly(final, n)];
    }
  }

  /** A second outcome of a request can be made to show. */
  lemma UndeterminedRun<N(!new)>(w: World<N>, reqs: seq<Request<N>>, i: nat, o: Outcome<N>)
      returns (order: seq<nat>, tables: seq<Table<N>>)
    requires ValidSession(reqs) && i < |reqs| && reqs[i].Evaluate? && RequestBound(reqs[i]) <= i
    requires May(w, Sequential(w, reqs), reqs[i].expr, None, o)
    requires o != Eval(w, Sequential(w, reqs), reqs[i].expr, None)
    ensures MayRun(w, reqs, order, tables) && |order| == i + 1 && !Consistent(w, reqs, tables[i + 1])
  {
    var final := Sequential(w, reqs);
    order, tables := PartlyRun(w, reqs, i);
    PartlyStep(w, reqs, i, o);
    SequentialSolves(w, reqs, i);
    SequentialResolved(w, reqs);
    MayProceeds(w, final, reqs[i].expr, None, o);
    var last := Partly(final, i)[i := Settle(o)];
    order, tables := order + [i], tables + [last];
    assert last[i] != final[i];
  }

  /** The exact condition: every answer of every schedule and order is the sequential one, errors
      included, if and only if every evaluate request has one outcome. */
  lemma DeterminedExactly<N(!new)>(w: World<N>, reqs: seq<Request<N>>)
    requires ValidSession(reqs)
    ensures AlwaysSequential(w, reqs) <==> AllDetermined(w, reqs)
  {
    if AllDetermined(w, reqs) {
      forall order, tables, k | MayRun(w, reqs, order, tables) && 0 <= k < |tables|
        ensures Consistent(w, reqs, tables[k])
      {
        DeterminedRun(w, reqs, order, tables, k);
      }
    }
    if AlwaysSequential(w, reqs) {
      forall i, o | 0 <= i < |reqs| && reqs[i].Evaluate?
                    && RequestBound(reqs[i]) <= i && May(w, Sequential(w, reqs), reqs[i].expr, None, o)
        ensures o == Eval(w, Sequential(w, reqs), reqs[i].expr, None)
      {
        if o != Eval(w, Sequential(w, reqs), reqs[i].expr, None) {
          var order, tables := UndeterminedRun(w, reqs, i, o);
        }
      }
    }
  }

  /** The same by shape alone, as long as client functions answer: no request's shape allows two
      errors in the finished table. */
  lemma DeterminedExactlyByShape<N(!new)>(w: World<N>, reqs: seq<Request<N>>)
    requires ValidSession(reqs) && CallbacksAnswer(w, Sequential(w, reqs))
    ensures AlwaysSequential(w, reqs) <==>
            forall i :: 0 <= i < |reqs| && reqs[i].Evaluate? ==>
              RequestBound(reqs[i]) <= i && AtMostOne(Failures(Sequential(w, reqs), reqs[i].expr, None))
  {
    var t := Sequential(w, reqs);
    DeterminedExactly(w, reqs);
    SequentialResolved(w, reqs);
    forall i | 0 <= i < |reqs| && reqs[i].Evaluate?
      ensures RequestBound(reqs[i]) <= i
      ensures Determined(w, t, reqs[i].expr, None) <==> AtMostOne(Failures(t, reqs[i].expr, None))
    {
      assert RequestBound(reqs[i]) <= i;
      DeterminedByShape(w, t, reqs[i].expr, None);
    }
  }

  /** A sufficient condition that asks nothing of the client's functions: every request calls
      functions only. */
  lemma FunctionCallsAreSequential<N(!new)>(w: World<N>, reqs: seq<Request<N>>)
    requires ValidSession(reqs)
    requires forall i :: 0 <= i < |reqs| && reqs[i].Evaluate? ==>
               RequestBound(reqs[i]) <= i && CallsFunctions(Sequential(w, reqs), reqs[i].expr)
    ensures AlwaysSequential(w, reqs)
  {
    var t := Sequential(w, reqs);
    forall i, o | 0 <= i < |reqs| && reqs[i].Evaluate? && May(w, t, reqs[i].expr, None, o)
      ensures o == Eval(w, t, reqs[i].expr, None)
    {
      CallsFunctionsDetermined(w, t, reqs[i].expr, None, o);
    }
    DeterminedExactly(w, reqs);
  }
}
