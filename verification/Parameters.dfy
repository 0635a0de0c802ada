/** Expressions whose outcome does not depend on the parameter list around them. */
module Parameters {
  import opened Wrappers
  import opened Calculator
  import opened StaticCheck

  /** The outcome is the same in every function body and outside all of them. */
  ghost predicate ParameterFree<N(!new)>(w: World<N>, t: Table<N>, e: Expr<N>)
    requires WellFounded(t) && Bound(e) <= |t|
  {
    forall params :: Eval(w, t, e, params) == Eval(w, t, e, None)
  }

  /** The outcome of an expression that reaches parameter `k` before anything else fails. */
  ghost predicate HitsParameter<T>(outside: Outcome<T>, nullary: Outcome<T>) {
    exists k :: outside == Err(OutsideFunction(k)) && nullary == Err(ParameterOutOfRange(k, 0))
  }

  lemma {:induction false} Dichotomy<N>(w: World<N>, t: Table<N>, e: Expr<N>, params: Option<seq<N>>)
    requires WellFounded(t) && Bound(e) <= |t|
    ensures || Eval(w, t, e, params) == Eval(w, t, e, None)
            || HitsParameter(Eval(w, t, e, None), Eval(w, t, e, Some([])))
    decreases e, 1
  {
    match e
    case Parameter(k) =>
      assert HitsParameter(Eval(w, t, e, None), Eval(w, t, e, Some([])));
    case Call(f, args) =>
      DichotomyArgs(w, t, args, params);
    case _ =>
  }

  lemma {:induction false} DichotomyArgs<N>(w: World<N>, t: Table<N>, args: seq<Expr<N>>, params: Option<seq<N>>)
    requires WellFounded(t) && BoundArgs(args) <= |t|
    ensures || EvalArgs(w, t, args, params) == EvalArgs(w, t, args, None)
            || HitsParameter(EvalArgs(w, t, args, None), EvalArgs(w, t, args, Some([])))
    decreases args, 0
  {
    if args != [] {
      Dichotomy(w, t, args[0], params);
      Dichotomy(w, t, args[0], Some([]));
      DichotomyArgs(w, t, args[1..], params);
    }
  }

  /** Weakening: a value computed outside any function is computed in every function body. */
  lemma Weakening<N>(w: World<N>, t: Table<N>, e: Expr<N>, params: Option<seq<N>>)
    requires WellFounded(t) && Bound(e) <= |t| && Eval(w, t, e, None).Ok?
    ensures Eval(w, t, e, params) == Eval(w, t, e, None)
  {
    Dichotomy(w, t, e, params);
  }

  /** One trial with an empty parameter list decides whether an expression ever looks at its
      parameters. */
  lemma ParameterFreeByTrial<N(!new)>(w: World<N>, t: Table<N>, e: Expr<N>)
    requires WellFounded(t) && Bound(e) <= |t|
    ensures ParameterFree(w, t, e) <==> Eval(w, t, e, Some([])) == Eval(w, t, e, None)
  {
    if Eval(w, t, e, Some([])) == Eval(w, t, e, None) {
      forall params
        ensures Eval(w, t, e, params) == Eval(w, t, e, None)
      {
        Dichotomy(w, t, e, params);
      }
    }
  }

  // ---------------------------------------------------------------------------------------
  // The same, read off the expression

  /** Evaluation outside functions comes to a parameter: the expression is one, or it is a call of a
      callable function in which the arguments before the parameter are all accepted. Only shapes
      are looked at. */
  predicate ReachesParameter<N>(t: Table<N>, e: Expr<N>)
    requires WellFounded(t) && Bound(e) <= |t|
    decreases e, 1
  {
    match e
    case Parameter(_) => true
    case Call(f, args) => f.Cap? && Callable(t[f.id]) && ArgsReachParameter(t, args)
    case _ => false
  }

  predicate ArgsReachParameter<N>(t: Table<N>, args: seq<Expr<N>>)
    requires WellFounded(t) && BoundArgs(args) <= |t|
    decreases args, 0
  {
    && args != []
    && (ReachesParameter(t, args[0]) || (Accepts(t, args[0], None) && ArgsReachParameter(t, args[1..])))
  }

  lemma {:induction false} ReachedIsHit<N(!new)>(w: World<N>, t: Table<N>, e: Expr<N>)
    requires WellFounded(t) && Bound(e) <= |t|
    ensures !ReachesParameter(t, e) ==> Eval(w, t, e, Some([])) == Eval(w, t, e, None)
    ensures ReachesParameter(t, e) && CallbacksAnswer(w, t) ==>
              HitsParameter(Eval(w, t, e, None), Eval(w, t, e, Some([])))
    decreases e, 1
  {
    match e
    case Parameter(k) =>
      assert HitsParameter(Eval(w, t, e, None), Eval(w, t, e, Some([])));
    case Call(f, args) => ArgsReachedIsHit(w, t, args);
    case _ =>
  }

  lemma {:induction false} ArgsReachedIsHit<N(!new)>(w: World<N>, t: Table<N>, args: seq<Expr<N>>)
    requires WellFounded(t) && BoundArgs(args) <= |t|
    ensures !ArgsReachParameter(t, args) ==> EvalArgs(w, t, args, Some([])) == EvalArgs(w, t, args, None)
    ensures ArgsReachParameter(t, args) && CallbacksAnswer(w, t) ==>
              HitsParameter(EvalArgs(w, t, args, None), EvalArgs(w, t, args, Some([])))
    decreases args, 0
  {
    if args != [] {
      ReachedIsHit(w, t, args[0]);
      ExactSuccess(w, t, args[0], None);
      ArgsReachedIsHit(w, t, args[1..]);
    }
  }

  /** The shape decides: an expression that reaches no parameter is parameter-free, and as long as
      the client's functions answer no other one is. */
  lemma ParameterFreeExact<N(!new)>(w: World<N>, t: Table<N>, e: Expr<N>)
    requires WellFounded(t) && Bound(e) <= |t|
    ensures !ReachesParameter(t, e) ==> ParameterFree(w, t, e)
    ensures CallbacksAnswer(w, t) ==> (ParameterFree(w, t, e) <==> !ReachesParameter(t, e))
  {
    ReachedIsHit(w, t, e);
    ParameterFreeByTrial(w, t, e);
  }
}
