/** "Returns the evaluation of `body` after substituting these parameters"
    (schema/calculator.capnp:72-73), against what the server does: it evaluates the stored body
    with the argument list beside it. */
module Substitution {
  import opened Wrappers
  import opened Calculator
  import opened StaticCheck
  import opened Parameters

  /** The body with each parameter that has a value replaced by that value. */
  function Substitute<N>(e: Expr<N>, vs: seq<N>): (r: Expr<N>)
    ensures Bound(r) == Bound(e)
    decreases e, 1
  {
    match e
    case Parameter(k) => if k < |vs| then Literal(vs[k]) else e
    case Call(f, args) => Call(f, SubstituteArgs(args, vs))
    case _ => e
  }

  function SubstituteArgs<N>(args: seq<Expr<N>>, vs: seq<N>): (r: seq<Expr<N>>)
    ensures |r| == |args| && BoundArgs(r) == BoundArgs(args)
    decreases args, 0
  {
    if args == [] then []
    else
      var r := [Substitute(args[0], vs)] + SubstituteArgs(args[1..], vs);
      assert r[1..] == SubstituteArgs(args[1..], vs);
      r
  }

  /** The same outcome, except that a parameter beyond the argument list is reported as out of
      range inside the function and as outside any function after substitution. */
  predicate SameUpToScope<T(==)>(inside: Outcome<T>, outside: Outcome<T>, count: nat) {
    || inside == outside
    || (&& inside.Err? && inside.error.ParameterOutOfRange? && inside.error.count == count
        && inside.error.index >= count
        && outside == Err(OutsideFunction(inside.error.index)))
  }

  lemma SameUpToScopeExactly<T>(inside: Outcome<T>, outside: Outcome<T>, count: nat)
    ensures SameUpToScope(inside, outside, count) <==>
            || inside == outside
            || exists k ::
                 k >= count && inside == Err(ParameterOutOfRange(k, count)) && outside == Err(OutsideFunction(k))
  {
    if SameUpToScope(inside, outside, count) && inside != outside {
      assert inside == Err(ParameterOutOfRange(inside.error.index, count));
    }
  }

  lemma {:induction false} SubstitutionSound<N>(w: World<N>, t: Table<N>, e: Expr<N>, vs: seq<N>)
    requires WellFounded(t) && Bound(e) <= |t|
    ensures SameUpToScope(Eval(w, t, e, Some(vs)), Eval(w, t, Substitute(e, vs), None), |vs|)
    decreases e, 1
  {
    match e
    case Call(f, args) => SubstitutionSoundArgs(w, t, args, vs);
    case _ =>
  }

  lemma {:induction false} SubstitutionSoundArgs<N>(w: World<N>, t: Table<N>, args: seq<Expr<N>>, vs: seq<N>)
    requires WellFounded(t) && BoundArgs(args) <= |t|
    ensures SameUpToScope(EvalArgs(w, t, args, Some(vs)), EvalArgs(w, t, SubstituteArgs(args, vs), None), |vs|)
    decreases args, 0
  {
    if args != [] {
      SubstitutionSound(w, t, args[0], vs);
      SubstitutionSoundArgs(w, t, args[1..], vs);
      assert SubstituteArgs(args, vs)[1..] == SubstituteArgs(args[1..], vs);
    }
  }

  // ---------------------------------------------------------------------------------------
  // When the two outcomes are equal

  /** The three outcomes of a body that comes to a parameter it has no argument for: inside the
      function, and after substitution outside functions and under an empty list. */
  ghost predicate MissesArgument<T>(inside: Outcome<T>, outside: Outcome<T>, nullary: Outcome<T>, count: nat) {
    exists k ::
      && inside == Err(ParameterOutOfRange(k, count))
      && outside == Err(OutsideFunction(k)) && nullary == Err(ParameterOutOfRange(k, 0))
  }

  lemma {:induction false} SubstitutionDichotomy<N>(w: World<N>, t: Table<N>, e: Expr<N>, vs: seq<N>)
    requires WellFounded(t) && Bound(e) <= |t|
    ensures var s := Substitute(e, vs);
            || Eval(w, t, e, Some(vs)) == Eval(w, t, s, None) == Eval(w, t, s, Some([]))
            || MissesArgument(Eval(w, t, e, Some(vs)), Eval(w, t, s, None), Eval(w, t, s, Some([])), |vs|)
    decreases e, 1
  {
    match e
    case Parameter(k) =>
      if k >= |vs| {
        assert MissesArgument(Eval(w, t, e, Some(vs)), Eval(w, t, e, None), Eval(w, t, e, Some([])), |vs|);
      }
    case Call(f, args) => SubstitutionDichotomyArgs(w, t, args, vs);
    case _ =>
  }

  lemma {:induction false} SubstitutionDichotomyArgs<N>(w: World<N>, t: Table<N>, args: seq<Expr<N>>, vs: seq<N>)
    requires WellFounded(t) && BoundArgs(args) <= |t|
    ensures var s := SubstituteArgs(args, vs);
            || EvalArgs(w, t, args, Some(vs)) == EvalArgs(w, t, s, None) == EvalArgs(w, t, s, Some([]))
            || MissesArgument(EvalArgs(w, t, args, Some(vs)), EvalArgs(w, t, s, None),
                              EvalArgs(w, t, s, Some([])), |vs|)
    decreases args, 0
  {
    if args != [] {
      SubstitutionDichotomy(w, t, args[0], vs);
      SubstitutionDichotomyArgs(w, t, args[1..], vs);
      assert SubstituteArgs(args, vs)[1..] == SubstituteArgs(args[1..], vs);
    }
  }

  /** The exact condition: passing arguments and substituting them give equal outcomes if and only
      if the substituted body is parameter-free; when the client's functions answer, if and only if
      its shape reaches no parameter. */
  lemma SubstitutionExact<N(!new)>(w: World<N>, t: Table<N>, e: Expr<N>, vs: seq<N>)
    requires WellFounded(t) && Bound(e) <= |t|
    ensures var s := Substitute(e, vs);
            var equal := Eval(w, t, e, Some(vs)) == Eval(w, t, s, None);
            && (equal <==> ParameterFree(w, t, s))
            && (!ReachesParameter(t, s) ==> equal)
            && (CallbacksAnswer(w, t) ==> (equal <==> !ReachesParameter(t, s)))
  {
    SubstitutionDichotomy(w, t, e, vs);
    ParameterFreeByTrial(w, t, Substitute(e, vs));
    ParameterFreeExact(w, t, Substitute(e, vs));
  }

  /** Calling a defined function is evaluating its substituted body outside any function. */
  lemma CallIsSubstitution<N(!new)>(w: World<N>, t: Table<N>, id: nat, vs: seq<N>)
    requires WellFounded(t) && id < |t| && t[id].Defined?
    ensures |vs| == t[id].arity ==>
              var s := Substitute(t[id].body, vs);
              && SameUpToScope(Apply(w, t, id, vs), Eval(w, t, s, None), |vs|)
              && (Apply(w, t, id, vs).Ok? <==> Eval(w, t, s, None).Ok?)
              && (Apply(w, t, id, vs) == Eval(w, t, s, None) <==> ParameterFree(w, t, s))
    ensures |vs| != t[id].arity ==> Apply(w, t, id, vs) == Err(WrongArity(t[id].arity, |vs|))
  {
    SubstitutionSound(w, t, t[id].body, vs);
    SubstitutionExact(w, t, t[id].body, vs);
  }

  /** A concrete case: a function of one parameter that asks for its second. */
  lemma SubstitutionExample<N>(w: World<N>, n: N)
    ensures var t: Table<N> := [Defined(1, Parameter(1))];
            && Apply(w, t, 0, [n]) == Err(ParameterOutOfRange(1, 1))
            && Eval(w, t, Substitute(t[0].body, [n]), None) == Err(OutsideFunction(1))
  {
  }

  /** Every parameter named has an argument. */
  predicate InScope<N>(e: Expr<N>, n: nat)
    decreases e, 1
  {
    match e
    case Parameter(k) => k < n
    case Call(_, args) => InScopeArgs(args, n)
    case _ => true
  }

  predicate InScopeArgs<N>(args: seq<Expr<N>>, n: nat)
    decreases args, 0
  {
    args != [] ==> InScope(args[0], n) && InScopeArgs(args[1..], n)
  }

  /** A body that stays within its parameters reaches none after substitution, so the two outcomes
      are equal. */
  lemma {:induction false} InScopeReachesNone<N>(t: Table<N>, e: Expr<N>, vs: seq<N>)
    requires WellFounded(t) && Bound(e) <= |t| && InScope(e, |vs|)
    ensures !ReachesParameter(t, Substitute(e, vs))
    decreases e, 1
  {
    match e
    case Call(f, args) => InScopeArgsReachNone(t, args, vs);
    case _ =>
  }

  lemma {:induction false} InScopeArgsReachNone<N>(t: Table<N>, args: seq<Expr<N>>, vs: seq<N>)
    requires WellFounded(t) && BoundArgs(args) <= |t| && InScopeArgs(args, |vs|)
    ensures !ArgsReachParameter(t, SubstituteArgs(args, vs))
    decreases args, 0
  {
    if args != [] {
      InScopeReachesNone(t, args[0], vs);
      InScopeArgsReachNone(t, args[1..], vs);
      assert SubstituteArgs(args, vs)[1..] == SubstituteArgs(args[1..], vs);
    }
  }
}
