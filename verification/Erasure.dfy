/** Evaluation commutes with forgetting the numbers: what becomes of a request, down to which error
    it reports, is decided by shapes. */
module Erasure {
  import opened Wrappers
  import opened Calculator
  import opened Session
  import opened StaticCheck

  /** A world with one number, in which every client function answers. */
  function Unit(): World<()> {
    World((_, _, _) => (), (_, _) => Answer(()))
  }

  function EraseOutcome<N>(o: Outcome<N>): Outcome<()> {
    match o
    case Ok(_) => Ok(())
    case Err(error) => Err(error)
    case Blocked => Blocked
  }

  function Units<N>(vs: seq<N>): (r: seq<()>)
    ensures |r| == |vs|
  {
    seq(|vs|, _ => ())
  }

  function EraseList<N>(o: Outcome<seq<N>>): Outcome<seq<()>> {
    match o
    case Ok(vs) => Ok(Units(vs))
    case Err(error) => Err(error)
    case Blocked => Blocked
  }

  function EraseParams<N>(params: Option<seq<N>>): Option<seq<()>> {
    if params.None? then None else Some(Units(params.value))
  }

  lemma ReadErased<N>(t: Table<N>, v: CapRef)
    requires RefBound(v) <= |t|
    ensures EraseOutcome(Read(t, v)) == Read(EraseTable(t), v)
  {
    if v.Cap? {
      assert EraseTable(t)[v.id] == EraseEntry(t[v.id]);
    }
  }

  lemma CalleeErased<N>(t: Table<N>, f: CapRef)
    requires RefBound(f) <= |t|
    ensures Callee(EraseTable(t), f) == Callee(t, f)
  {
    if f.Cap? {
      assert EraseTable(t)[f.id] == EraseEntry(t[f.id]);
    }
  }

  lemma {:induction false} EvalErased<N(!new)>(w: World<N>, t: Table<N>, e: Expr<N>, params: Option<seq<N>>)
    requires WellFounded(t) && Bound(e) <= |t| && CallbacksAnswer(w, t)
    ensures WellFounded(EraseTable(t)) && Bound(Erase(e)) <= |t|
    ensures EraseOutcome(Eval(w, t, e, params)) == Eval(Unit(), EraseTable(t), Erase(e), EraseParams(params))
    decreases 2 * Bound(e), e, 1
  {
    EraseWellFounded(t);
    EraseBound(e);
    match e
    case PreviousResult(v) => ReadErased(t, v);
    case Call(f, args) =>
      CalleeErased(t, f);
      EvalArgsErased(w, t, args, params);
      var vs := EvalArgs(w, t, args, params);
      if Callee(t, f).Ok? && vs.Ok? {
        ApplyErased(w, t, f.id, vs.value);
      }
    case _ =>
  }

  lemma {:induction false} EvalArgsErased<N(!new)>(w: World<N>, t: Table<N>, args: seq<Expr<N>>, params: Option<seq<N>>)
    requires WellFounded(t) && BoundArgs(args) <= |t| && CallbacksAnswer(w, t)
    ensures WellFounded(EraseTable(t)) && BoundArgs(EraseArgs(args)) <= |t|
    ensures EraseList(EvalArgs(w, t, args, params)) ==
            EvalArgs(Unit(), EraseTable(t), EraseArgs(args), EraseParams(params))
    decreases 2 * BoundArgs(args), args, 0
  {
    EraseWellFounded(t);
    EraseArgsBound(args);
    if args != [] {
      EvalErased(w, t, args[0], params);
      EvalArgsErased(w, t, args[1..], params);
      assert EraseArgs(args)[1..] == EraseArgs(args[1..]);
      var v, vs := Eval(w, t, args[0], params), EvalArgs(w, t, args[1..], params);
      if v.Ok? && vs.Ok? {
        assert Units([v.value] + vs.value) == [()] + Units(vs.value);
      }
    }
  }

  lemma {:induction false} ApplyErased<N(!new)>(w: World<N>, t: Table<N>, id: nat, vs: seq<N>)
    requires WellFounded(t) && id < |t| && Callable(t[id]) && CallbacksAnswer(w, t)
    ensures WellFounded(EraseTable(t)) && Callable(EraseTable(t)[id])
    ensures EraseOutcome(Apply(w, t, id, vs)) == Apply(Unit(), EraseTable(t), id, Units(vs))
    decreases 2 * id + 1
  {
    EraseWellFounded(t);
    if t[id].Defined? && |vs| == t[id].arity {
      EvalErased(w, t, t[id].body, Some(vs));
    }
  }

  // ---------------------------------------------------------------------------------------
  // Sessions

  /** The client's functions answer whatever they are asked. */
  ghost predicate AlwaysAnswers<N(!new)>(w: World<N>) {
    forall id, vs :: w.callback(id, vs).Answer?
  }

  /** The assumption on a world is the assumption on every table. */
  lemma AlwaysAnswersExactly<N(!new)>(w: World<N>)
    ensures AlwaysAnswers(w) <==> forall t: Table<N> :: CallbacksAnswer(w, t)
  {
    if forall t: Table<N> :: CallbacksAnswer(w, t) {
      forall id: nat, vs
        ensures w.callback(id, vs).Answer?
      {
        var t: Table<N> := seq(id + 1, _ => Callback);
        assert CallbacksAnswer(w, t) && t[id].Callback?;
      }
    }
  }

  function EraseRequest<N>(r: Request<N>): Request<()> {
    match r
    case Evaluate(expr) => Evaluate(Erase(expr))
    case DefFunction(arity, body) => DefFunction(arity, Erase(body))
    case GetOperator(code) => GetOperator(code)
    case Export => Export
  }

  function EraseSession<N>(reqs: seq<Request<N>>): (r: seq<Request<()>>)
    ensures |r| == |reqs|
  {
    seq(|reqs|, i requires 0 <= i < |reqs| => EraseRequest(reqs[i]))
  }

  lemma EraseRequestBound<N>(r: Request<N>)
    ensures RequestBound(EraseRequest(r)) == RequestBound(r)
  {
    match r
    case Evaluate(expr) => EraseBound(expr);
    case DefFunction(_, body) => EraseBound(body);
    case _ =>
  }

  lemma EraseSessionValid<N>(reqs: seq<Request<N>>)
    requires ValidSession(reqs)
    ensures ValidSession(EraseSession(reqs))
  {
    forall i | 0 <= i < |reqs|
      ensures RequestBound(EraseSession(reqs)[i]) <= i
    {
      EraseRequestBound(reqs[i]);
    }
  }

  lemma ResolveErased<N(!new)>(w: World<N>, t: Table<N>, r: Request<N>)
    requires WellFounded(t) && RequestBound(r) <= |t| && AlwaysAnswers(w)
    ensures WellFounded(EraseTable(t)) && RequestBound(EraseRequest(r)) <= |t|
    ensures EraseEntry(Resolve(w, t, r)) == Resolve(Unit(), EraseTable(t), EraseRequest(r))
  {
    EraseWellFounded(t);
    EraseRequestBound(r);
    if r.Evaluate? {
      EvalErased(w, t, r.expr, None);
    }
  }

  /** What becomes of every request of a session is static: running it and forgetting the numbers is
      running the session without its numbers. */
  lemma {:induction false} SessionErased<N(!new)>(w: World<N>, reqs: seq<Request<N>>)
    requires ValidSession(reqs) && AlwaysAnswers(w)
    ensures ValidSession(EraseSession(reqs))
    ensures EraseTable(Sequential(w, reqs)) == Sequential(Unit(), EraseSession(reqs))
    decreases |reqs|
  {
    EraseSessionValid(reqs);
    if reqs != [] {
      var n := |reqs| - 1;
      var t := Sequential(w, reqs[..n]);
      SessionErased(w, reqs[..n]);
      assert EraseSession(reqs)[..n] == EraseSession(reqs[..n]);
      ResolveErased(w, t, reqs[n]);
      assert EraseTable(t + [Resolve(w, t, reqs[n])]) == EraseTable(t) + [EraseEntry(Resolve(w, t, reqs[n]))];
    }
  }

  /** Sessions that differ only in numbers, even of different types, answer every request alike: a
      value for a value, the same error for an error. */
  lemma SessionsAlike<M(!new), N(!new)>(w: World<M>, reqs: seq<Request<M>>, w': World<N>, reqs': seq<Request<N>>)
    requires ValidSession(reqs) && ValidSession(reqs') && AlwaysAnswers(w) && AlwaysAnswers(w')
    requires EraseSession(reqs) == EraseSession(reqs')
    ensures EraseTable(Sequential(w, reqs)) == EraseTable(Sequential(w', reqs'))
  {
    SessionErased(w, reqs);
    SessionErased(w', reqs');
  }
}
