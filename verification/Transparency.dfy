/** Referential transparency: a result capability stands for the expression that produced it. */
module Transparency {
  import opened Wrappers
  import opened Calculator
  import opened Session
  import opened StaticCheck
  import opened Parameters

  // ---------------------------------------------------------------------------------------
  // One node

  /** In every context, the result capability and the expression have the same outcome. */
  ghost predicate Interchangeable<N(!new)>(w: World<N>, t: Table<N>, id: nat, e: Expr<N>)
    requires WellFounded(t) && id < |t| && Bound(e) <= |t|
  {
    forall params :: Eval(w, t, PreviousResult(Cap(id)), params) == Eval(w, t, e, params)
  }

  /** Outside functions, the result of request `i` and its expression are always interchangeable.
      In every context they are if the expression's shape reaches no parameter and, as long as the
      client's functions answer, only then. */
  lemma NodeTransparent<N(!new)>(w: World<N>, reqs: seq<Request<N>>, i: nat)
    requires ValidSession(reqs) && i < |reqs| && reqs[i].Evaluate?
    ensures var t, e := Sequential(w, reqs), reqs[i].expr;
            && Eval(w, t, PreviousResult(Cap(i)), None) == Eval(w, t, e, None)
            && (!ReachesParameter(t, e) ==> Interchangeable(w, t, i, e))
            && (CallbacksAnswer(w, t) ==> (Interchangeable(w, t, i, e) <==> !ReachesParameter(t, e)))
  {
    SequentialSolves(w, reqs, i);
    var t, e := Sequential(w, reqs), reqs[i].expr;
    ParameterFreeExact(w, t, e);
    forall params
      ensures Eval(w, t, PreviousResult(Cap(i)), params) == Eval(w, t, e, None)
    {
    }
    if Interchangeable(w, t, i, e) {
      forall params
        ensures Eval(w, t, e, params) == Eval(w, t, e, None)
      {
        assert Eval(w, t, PreviousResult(Cap(i)), params) == Eval(w, t, e, params);
      }
    }
  }

  /** A concrete case: the result of a bare parameter is an error for good, while the parameter
      itself has a value in a function body. */
  lemma NodeExample<N>(w: World<N>, n: N)
    ensures var reqs: seq<Request<N>> := [Evaluate(Parameter(0))];
            var t := Sequential(w, reqs);
            && Eval(w, t, PreviousResult(Cap(0)), Some([n])) == Err(OutsideFunction(0))
            && Eval(w, t, reqs[0].expr, Some([n])) == Ok(n)
  {
  }

  // ---------------------------------------------------------------------------------------
  // Any choice of nodes

  /** The result of request `i` may be replaced by its expression: anywhere outside functions, and
      inside a function body if the expression is parameter-free. */
  ghost predicate Replaceable<N(!new)>(w: World<N>, reqs: seq<Request<N>>, inBody: bool, i: nat)
    requires ValidSession(reqs) && i < |reqs|
  {
    && reqs[i].Evaluate?
    && RequestBound(reqs[i]) <= i
    && (inBody ==> ParameterFree(w, Sequential(w, reqs), reqs[i].expr))
  }

  /** `e'` is `e` with any choice of result nodes replaced, each on its own, by the expression that
      produced it, in which nodes may have been replaced in turn. */
  ghost predicate Replaces<N(!new)>(w: World<N>, reqs: seq<Request<N>>, inBody: bool, e: Expr<N>, e': Expr<N>)
    requires ValidSession(reqs) && Bound(e) <= |reqs|
    decreases Bound(e), e, 1
  {
    match e
    case PreviousResult(v) =>
      || e' == e
      || (v.Cap? && Replaceable(w, reqs, inBody, v.id) && Replaces(w, reqs, inBody, reqs[v.id].expr, e'))
    case Call(f, args) => e'.Call? && e'.f == f && ReplacesArgs(w, reqs, inBody, args, e'.args)
    case _ => e' == e
  }

  ghost predicate ReplacesArgs<N(!new)>(w: World<N>, reqs: seq<Request<N>>, inBody: bool, args: seq<Expr<N>>,
                                        args': seq<Expr<N>>)
    requires ValidSession(reqs) && BoundArgs(args) <= |reqs|
    decreases BoundArgs(args), args, 0
  {
    && |args| == |args'|
    && (args != [] ==>
          && Replaces(w, reqs, inBody, args[0], args'[0])
          && ReplacesArgs(w, reqs, inBody, args[1..], args'[1..]))
  }

  lemma {:induction false} ReplacesBound<N(!new)>(w: World<N>, reqs: seq<Request<N>>, inBody: bool, e: Expr<N>,
                                                  e': Expr<N>)
    requires ValidSession(reqs) && Bound(e) <= |reqs| && Replaces(w, reqs, inBody, e, e')
    ensures Bound(e') <= Bound(e)
    decreases Bound(e), e, 1
  {
    match e
    case PreviousResult(v) =>
      if e' != e {
        ReplacesBound(w, reqs, inBody, reqs[v.id].expr, e');
      }
    case Call(f, args) => ReplacesArgsBound(w, reqs, inBody, args, e'.args);
    case _ =>
  }

  lemma {:induction false} ReplacesArgsBound<N(!new)>(w: World<N>, reqs: seq<Request<N>>, inBody: bool,
                                                      args: seq<Expr<N>>, args': seq<Expr<N>>)
    requires ValidSession(reqs) && BoundArgs(args) <= |reqs| && ReplacesArgs(w, reqs, inBody, args, args')
    ensures BoundArgs(args') <= BoundArgs(args)
    decreases BoundArgs(args), args, 0
  {
    if args != [] {
      ReplacesBound(w, reqs, inBody, args[0], args'[0]);
      ReplacesArgsBound(w, reqs, inBody, args[1..], args'[1..]);
    }
  }

  /** Function bodies with nodes replaced, everything else as it was. */
  ghost predicate ReplacesEntry<N(!new)>(w: World<N>, reqs: seq<Request<N>>, entry: Entry<N>, entry': Entry<N>)
    requires ValidSession(reqs) && (entry.Defined? ==> Bound(entry.body) <= |reqs|)
  {
    if entry.Defined? then
      entry'.Defined? && entry'.arity == entry.arity && Replaces(w, reqs, true, entry.body, entry'.body)
    else entry' == entry
  }

  ghost predicate ReplacesTable<N(!new)>(w: World<N>, reqs: seq<Request<N>>, t': Table<N>)
    requires ValidSession(reqs)
  {
    var t := Sequential(w, reqs);
    && |t'| == |t|
    && WellFounded(t')
    && (forall i :: 0 <= i < |t| ==> ReplacesEntry(w, reqs, t[i], t'[i]))
  }

  lemma ResultIsSource<N(!new)>(w: World<N>, reqs: seq<Request<N>>, inBody: bool, i: nat, params: Option<seq<N>>)
    requires ValidSession(reqs) && i < |reqs| && Replaceable(w, reqs, inBody, i)
    requires !inBody ==> params.None?
    ensures var t := Sequential(w, reqs);
            Read(t, Cap(i)) == Eval(w, t, reqs[i].expr, params)
  {
    SequentialSolves(w, reqs, i);
  }

  /** Replacing any nodes, at top level and inside stored bodies, leaves the outcome unchanged. */
  lemma {:induction false} ReplacesSound<N(!new)>(w: World<N>, reqs: seq<Request<N>>, t': Table<N>, inBody: bool,
                                                  e: Expr<N>, e': Expr<N>, params: Option<seq<N>>)
    requires ValidSession(reqs) && ReplacesTable(w, reqs, t') && Bound(e) <= |reqs|
    requires Replaces(w, reqs, inBody, e, e') && (!inBody ==> params.None?)
    ensures Bound(e') <= |t'|
    ensures Eval(w, t', e', params) == Eval(w, Sequential(w, reqs), e, params)
    decreases 2 * Bound(e), e, 1
  {
    var t := Sequential(w, reqs);
    ReplacesBound(w, reqs, inBody, e, e');
    match e
    case PreviousResult(v) =>
      if v.Cap? {
        assert ReplacesEntry(w, reqs, t[v.id], t'[v.id]);
        if e' != e {
          ResultIsSource(w, reqs, inBody, v.id, params);
          ReplacesSound(w, reqs, t', inBody, reqs[v.id].expr, e', params);
        }
      }
    case Call(f, args) =>
      if f.Cap? {
        assert ReplacesEntry(w, reqs, t[f.id], t'[f.id]);
      }
      ReplacesSoundArgs(w, reqs, t', inBody, args, e'.args, params);
      var vs := EvalArgs(w, t, args, params);
      if Callee(t, f).Ok? && vs.Ok? {
        ReplacesSoundApply(w, reqs, t', f.id, vs.value);
      }
    case _ =>
  }

  lemma {:induction false} ReplacesSoundArgs<N(!new)>(w: World<N>, reqs: seq<Request<N>>, t': Table<N>, inBody: bool,
                                                      args: seq<Expr<N>>, args': seq<Expr<N>>, params: Option<seq<N>>)
    requires ValidSession(reqs) && ReplacesTable(w, reqs, t') && BoundArgs(args) <= |reqs|
    requires ReplacesArgs(w, reqs, inBody, args, args') && (!inBody ==> params.None?)
    ensures BoundArgs(args') <= |t'|
    ensures EvalArgs(w, t', args', params) == EvalArgs(w, Sequential(w, reqs), args, params)
    decreases 2 * BoundArgs(args), args, 0
  {
    ReplacesArgsBound(w, reqs, inBody, args, args');
    if args != [] {
      ReplacesSound(w, reqs, t', inBody, args[0], args'[0], params);
      ReplacesSoundArgs(w, reqs, t', inBody, args[1..], args'[1..], params);
    }
  }

  lemma {:induction false} ReplacesSoundApply<N(!new)>(w: World<N>, reqs: seq<Request<N>>, t': Table<N>, id: nat,
                                                       vs: seq<N>)
    requires ValidSession(reqs) && ReplacesTable(w, reqs, t') && id < |reqs|
    requires Callable(Sequential(w, reqs)[id])
    ensures Callable(t'[id])
    ensures Apply(w, t', id, vs) == Apply(w, Sequential(w, reqs), id, vs)
    decreases 2 * id + 1
  {
    var t := Sequential(w, reqs);
    assert ReplacesEntry(w, reqs, t[id], t'[id]);
    if t[id].Defined? {
      ReplacesSound(w, reqs, t', true, t[id].body, t'[id].body, Some(vs));
    }
  }

  /** The choice is free: nothing need be replaced, and a replaceable node may be. */
  lemma {:induction false} ReplacesNothing<N(!new)>(w: World<N>, reqs: seq<Request<N>>, inBody: bool, e: Expr<N>)
    requires ValidSession(reqs) && Bound(e) <= |reqs|
    ensures Replaces(w, reqs, inBody, e, e)
    decreases e, 1
  {
    match e
    case Call(f, args) => ReplacesNoArgs(w, reqs, inBody, args);
    case _ =>
  }

  lemma {:induction false} ReplacesNoArgs<N(!new)>(w: World<N>, reqs: seq<Request<N>>, inBody: bool, args: seq<Expr<N>>)
    requires ValidSession(reqs) && BoundArgs(args) <= |reqs|
    ensures ReplacesArgs(w, reqs, inBody, args, args)
    decreases args, 0
  {
    if args != [] {
      ReplacesNothing(w, reqs, inBody, args[0]);
      ReplacesNoArgs(w, reqs, inBody, args[1..]);
    }
  }

  lemma ReplacesNode<N(!new)>(w: World<N>, reqs: seq<Request<N>>, inBody: bool, i: nat)
    requires ValidSession(reqs) && i < |reqs| && reqs[i].Evaluate?
    requires inBody ==> !ReachesParameter(Sequential(w, reqs), reqs[i].expr)
    ensures Replaces(w, reqs, inBody, PreviousResult(Cap(i)), reqs[i].expr)
  {
    ReplacesNothing(w, reqs, inBody, reqs[i].expr);
    ParameterFreeExact(w, Sequential(w, reqs), reqs[i].expr);
  }

  /** Replacing inside one argument is replacing inside the call, so by repetition any one node of
      an expression may be chosen. */
  lemma {:induction false} ReplacesUnderCall<N(!new)>(w: World<N>, reqs: seq<Request<N>>, inBody: bool, f: CapRef,
                                                      args: seq<Expr<N>>, k: nat, x: Expr<N>)
    requires ValidSession(reqs) && Bound(Call(f, args)) <= |reqs| && k < |args|
    requires Bound(args[k]) <= |reqs| && Replaces(w, reqs, inBody, args[k], x)
    ensures Replaces(w, reqs, inBody, Call(f, args), Call(f, args[k := x]))
  {
    ReplacesOneArg(w, reqs, inBody, args, k, x);
  }

  lemma {:induction false} ReplacesOneArg<N(!new)>(w: World<N>, reqs: seq<Request<N>>, inBody: bool,
                                                   args: seq<Expr<N>>, k: nat, x: Expr<N>)
    requires ValidSession(reqs) && BoundArgs(args) <= |reqs| && k < |args|
    requires Bound(args[k]) <= |reqs| && Replaces(w, reqs, inBody, args[k], x)
    ensures ReplacesArgs(w, reqs, inBody, args, args[k := x])
  {
    if k == 0 {
      ReplacesNoArgs(w, reqs, inBody, args[1..]);
      assert args[k := x][1..] == args[1..];
    } else {
      ReplacesNothing(w, reqs, inBody, args[0]);
      ReplacesOneArg(w, reqs, inBody, args[1..], k - 1, x);
      assert args[k := x][1..] == args[1..][k - 1 := x];
    }
  }

  /** Replacing can go on: nodes of what was put in may be replaced in turn. */
  lemma {:induction false} ReplacesAgain<N(!new)>(w: World<N>, reqs: seq<Request<N>>, inBody: bool, e: Expr<N>,
                                                  e': Expr<N>, e'': Expr<N>)
    requires ValidSession(reqs) && Bound(e) <= |reqs| && Bound(e') <= |reqs|
    requires Replaces(w, reqs, inBody, e, e') && Replaces(w, reqs, inBody, e', e'')
    ensures Replaces(w, reqs, inBody, e, e'')
    decreases Bound(e), e, 1
  {
    match e
    case PreviousResult(v) =>
      if e' != e {
        ReplacesAgain(w, reqs, inBody, reqs[v.id].expr, e', e'');
      }
    case Call(f, args) => ReplacesArgsAgain(w, reqs, inBody, args, e'.args, e''.args);
    case _ =>
  }

  lemma {:induction false} ReplacesArgsAgain<N(!new)>(w: World<N>, reqs: seq<Request<N>>, inBody: bool,
                                                      a: seq<Expr<N>>, a': seq<Expr<N>>, a'': seq<Expr<N>>)
    requires ValidSession(reqs) && BoundArgs(a) <= |reqs| && BoundArgs(a') <= |reqs|
    requires ReplacesArgs(w, reqs, inBody, a, a') && ReplacesArgs(w, reqs, inBody, a', a'')
    ensures ReplacesArgs(w, reqs, inBody, a, a'')
    decreases BoundArgs(a), a, 0
  {
    if a != [] {
      ReplacesAgain(w, reqs, inBody, a[0], a'[0], a''[0]);
      ReplacesArgsAgain(w, reqs, inBody, a[1..], a'[1..], a''[1..]);
    }
  }

  // ---------------------------------------------------------------------------------------
  // Whole sessions

  ghost predicate ReplacesRequest<N(!new)>(w: World<N>, reqs: seq<Request<N>>, r: Request<N>, r': Request<N>)
    requires ValidSession(reqs) && RequestBound(r) <= |reqs|
  {
    match r
    case Evaluate(expr) => r'.Evaluate? && Replaces(w, reqs, false, expr, r'.expr)
    case DefFunction(arity, body) =>
      r'.DefFunction? && r'.arity == arity && Replaces(w, reqs, true, body, r'.body)
    case _ => r' == r
  }

  ghost predicate ReplacesSession<N(!new)>(w: World<N>, reqs: seq<Request<N>>, reqs': seq<Request<N>>)
    requires ValidSession(reqs)
  {
    && |reqs'| == |reqs|
    && (forall i :: 0 <= i < |reqs| ==>
          RequestBound(reqs[i]) <= i && ReplacesRequest(w, reqs, reqs[i], reqs'[i]))
  }

  /** Replacing nothing is allowed, and so is one more replacement in any request: outside functions
      in an evaluate request, inside a body in a definition. */
  lemma ReplacesInRequest<N(!new)>(w: World<N>, reqs: seq<Request<N>>, reqs': seq<Request<N>>, i: nat, x: Expr<N>)
    requires ValidSession(reqs) && ReplacesSession(w, reqs, reqs') && i < |reqs| && RequestBound(reqs'[i]) <= |reqs|
    ensures ReplacesSession(w, reqs, reqs)
    ensures reqs'[i].Evaluate? && Replaces(w, reqs, false, reqs'[i].expr, x) ==>
              ReplacesSession(w, reqs, reqs'[i := Evaluate(x)])
    ensures reqs'[i].DefFunction? && Replaces(w, reqs, true, reqs'[i].body, x) ==>
              ReplacesSession(w, reqs, reqs'[i := DefFunction(reqs'[i].arity, x)])
  {
    forall j | 0 <= j < |reqs|
      ensures RequestBound(reqs[j]) <= j && ReplacesRequest(w, reqs, reqs[j], reqs[j])
    {
      match reqs[j]
      case Evaluate(expr) => ReplacesNothing(w, reqs, false, expr);
      case DefFunction(_, body) => ReplacesNothing(w, reqs, true, body);
      case _ =>
    }
    assert ReplacesRequest(w, reqs, reqs[i], reqs'[i]);
    if reqs'[i].Evaluate? && Replaces(w, reqs, false, reqs'[i].expr, x) {
      ReplacesAgain(w, reqs, false, reqs[i].expr, reqs'[i].expr, x);
    }
    if reqs'[i].DefFunction? && Replaces(w, reqs, true, reqs'[i].body, x) {
      ReplacesAgain(w, reqs, true, reqs[i].body, reqs'[i].body, x);
    }
  }

  lemma ReplacedSessionValid<N(!new)>(w: World<N>, reqs: seq<Request<N>>, reqs': seq<Request<N>>)
    requires ValidSession(reqs) && ReplacesSession(w, reqs, reqs')
    ensures ValidSession(reqs')
  {
    forall i | 0 <= i < |reqs'|
      ensures RequestBound(reqs'[i]) <= i
    {
      assert ReplacesRequest(w, reqs, reqs[i], reqs'[i]);
      match reqs[i]
      case Evaluate(expr) => ReplacesBound(w, reqs, false, expr, reqs'[i].expr);
      case DefFunction(_, body) => ReplacesBound(w, reqs, true, body, reqs'[i].body);
      case _ =>
    }
  }

  /** The table the replaced session is expected to end with. */
  ghost function Expected<N(!new)>(w: World<N>, reqs: seq<Request<N>>, reqs': seq<Request<N>>): (t': Table<N>)
    requires ValidSession(reqs) && ReplacesSession(w, reqs, reqs')
    ensures |t'| == |reqs|
  {
    var t := Sequential(w, reqs);
    seq(|t|, i requires 0 <= i < |t| =>
      if reqs'[i].DefFunction? then Defined(reqs'[i].arity, reqs'[i].body) else t[i])
  }

  lemma ExpectedReplaces<N(!new)>(w: World<N>, reqs: seq<Request<N>>, reqs': seq<Request<N>>)
    requires ValidSession(reqs) && ReplacesSession(w, reqs, reqs')
    ensures ReplacesTable(w, reqs, Expected(w, reqs, reqs'))
  {
    ReplacedSessionValid(w, reqs, reqs');
    var t, t' := Sequential(w, reqs), Expected(w, reqs, reqs');
    forall i | 0 <= i < |t|
      ensures ReplacesEntry(w, reqs, t[i], t'[i])
      ensures t'[i].Defined? ==> Bound(t'[i].body) <= i
    {
      SequentialSolves(w, reqs, i);
      assert ReplacesRequest(w, reqs, reqs[i], reqs'[i]) && RequestBound(reqs'[i]) <= i;
    }
  }

  /** A replaced request gives the expected entry. */
  lemma ReplacedRequest<N(!new)>(w: World<N>, reqs: seq<Request<N>>, reqs': seq<Request<N>>, i: nat)
    requires ValidSession(reqs) && ReplacesSession(w, reqs, reqs') && i < |reqs|
    ensures var t' := Expected(w, reqs, reqs');
            && WellFounded(t'[..i]) && RequestBound(reqs'[i]) <= i
            && Resolve(w, t'[..i], reqs'[i]) == t'[i]
  {
    var t, t' := Sequential(w, reqs), Expected(w, reqs, reqs');
    ExpectedReplaces(w, reqs, reqs');
    ReplacedSessionValid(w, reqs, reqs');
    SequentialSolves(w, reqs, i);
    assert ReplacesRequest(w, reqs, reqs[i], reqs'[i]) && RequestBound(reqs'[i]) <= i;
    if reqs[i].Evaluate? {
      ReplacesSound(w, reqs, t', false, reqs[i].expr, reqs'[i].expr, None);
      ExpectedResolved(w, reqs, reqs', i);
      EvalLocal(w, t'[..i], t', reqs'[i].expr, None);
    }
  }

  lemma ExpectedResolved<N(!new)>(w: World<N>, reqs: seq<Request<N>>, reqs': seq<Request<N>>, n: nat)
    requires ValidSession(reqs) && ReplacesSession(w, reqs, reqs') && n <= |reqs|
    ensures Resolved(Expected(w, reqs, reqs'), n)
  {
    forall i | 0 <= i < n
      ensures !Expected(w, reqs, reqs')[i].Pending?
    {
      SequentialSolves(w, reqs, i);
    }
  }

  lemma {:induction false} ReplacedPrefix<N(!new)>(w: World<N>, reqs: seq<Request<N>>, reqs': seq<Request<N>>, n: nat)
    requires ValidSession(reqs) && ReplacesSession(w, reqs, reqs') && n <= |reqs|
    ensures ValidSession(reqs'[..n]) && Sequential(w, reqs'[..n]) == Expected(w, reqs, reqs')[..n]
  {
    ReplacedSessionValid(w, reqs, reqs');
    if n > 0 {
      var t' := Expected(w, reqs, reqs');
      ReplacedPrefix(w, reqs, reqs', n - 1);
      assert reqs'[..n][..n - 1] == reqs'[..n - 1];
      ReplacedRequest(w, reqs, reqs', n - 1);
      assert t'[..n] == t'[..n - 1] + [t'[n - 1]];
    }
  }

  /** A session in which any result nodes are replaced by their expressions, each occurrence on its
      own, in requests and in function bodies, is a session that ends with the same values, the
      same errors and the same functions up to those nodes. */
  lemma SessionTransparent<N(!new)>(w: World<N>, reqs: seq<Request<N>>, reqs': seq<Request<N>>)
    requires ValidSession(reqs) && ReplacesSession(w, reqs, reqs')
    ensures ValidSession(reqs') && ReplacesTable(w, reqs, Sequential(w, reqs'))
  {
    ReplacedPrefix(w, reqs, reqs', |reqs|);
    ExpectedReplaces(w, reqs, reqs');
    assert reqs'[..|reqs|] == reqs' && Expected(w, reqs, reqs')[..|reqs|] == Expected(w, reqs, reqs');
  }
}
