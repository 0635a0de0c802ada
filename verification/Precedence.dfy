/** Which of two failures is reported. When a call's function cannot be called, or is still a
    promise, the RPC library decides whether its arguments are evaluated before that is noticed.
    This module lets every call go either way every time it is evaluated, and proves what depends on
    it: never a value, never whether a request fails, and which error is reported exactly when the
    expression's shape allows two. */
module Precedence {
  import opened Wrappers
  import opened Calculator
  import opened Session
  import opened StaticCheck

  function Cons<N>(v: N, rest: Outcome<seq<N>>): Outcome<seq<N>> {
    if rest.Ok? then Ok([v] + rest.value) else rest
  }

  /** `e` may have outcome `o`: at each call, either the function or the arguments come first. */
  ghost predicate May<N(!new)>(w: World<N>, t: Table<N>, e: Expr<N>, params: Option<seq<N>>, o: Outcome<N>)
    requires WellFounded(t) && Bound(e) <= |t|
    decreases 2 * Bound(e), e, 1
  {
    match e
    case Call(f, args) =>
      || (!Callee(t, f).Ok? && o == Callee(t, f).PropagateFailure())
      || (exists a ::
            && MayArgs(w, t, args, params, a)
            && (if a.Ok? then Callee(t, f).Ok? && MayApply(w, t, f.id, a.value, o) else o == a.PropagateFailure()))
    case _ => o == Eval(w, t, e, params)
  }

  ghost predicate MayArgs<N(!new)>(w: World<N>, t: Table<N>, args: seq<Expr<N>>, params: Option<seq<N>>,
                                   a: Outcome<seq<N>>)
    requires WellFounded(t) && BoundArgs(args) <= |t|
    decreases 2 * BoundArgs(args), args, 0
  {
    if args == [] then a == Ok([])
    else
      exists v ::
        && May(w, t, args[0], params, v)
        && (if v.Ok? then exists rest :: MayArgs(w, t, args[1..], params, rest) && a == Cons(v.value, rest)
            else a == v.PropagateFailure())
  }

  ghost predicate MayApply<N(!new)>(w: World<N>, t: Table<N>, id: nat, vs: seq<N>, o: Outcome<N>)
    requires WellFounded(t) && id < |t| && Callable(t[id])
    decreases 2 * id + 1
  {
    if t[id].Defined? && |vs| == t[id].arity then May(w, t, t[id].body, Some(vs), o)
    else o == Apply(w, t, id, vs)
  }

  /** How a call came to an outcome other than its function's own failure. */
  lemma CallCases<N(!new)>(w: World<N>, t: Table<N>, f: CapRef, args: seq<Expr<N>>, params: Option<seq<N>>,
                           o: Outcome<N>)
      returns (a: Outcome<seq<N>>)
    requires WellFounded(t) && Bound(Call(f, args)) <= |t| && May(w, t, Call(f, args), params, o)
    requires Callee(t, f).Ok? || o != Callee(t, f).PropagateFailure()
    ensures MayArgs(w, t, args, params, a)
    ensures if a.Ok? then Callee(t, f).Ok? && MayApply(w, t, f.id, a.value, o) else o == a.PropagateFailure()
  {
    a :| && MayArgs(w, t, args, params, a)
         && (if a.Ok? then Callee(t, f).Ok? && MayApply(w, t, f.id, a.value, o) else o == a.PropagateFailure());
  }

  /** How a non-empty list of arguments came to an outcome. */
  lemma ArgsCases<N(!new)>(w: World<N>, t: Table<N>, args: seq<Expr<N>>, params: Option<seq<N>>, a: Outcome<seq<N>>)
      returns (v: Outcome<N>, rest: Outcome<seq<N>>)
    requires WellFounded(t) && BoundArgs(args) <= |t| && args != [] && MayArgs(w, t, args, params, a)
    ensures May(w, t, args[0], params, v)
    ensures if v.Ok? then MayArgs(w, t, args[1..], params, rest) && a == Cons(v.value, rest)
            else a == v.PropagateFailure()
  {
    v :| && May(w, t, args[0], params, v)
         && (if v.Ok? then exists rest :: MayArgs(w, t, args[1..], params, rest) && a == Cons(v.value, rest)
             else a == v.PropagateFailure());
    rest := Blocked;
    if v.Ok? {
      rest :| MayArgs(w, t, args[1..], params, rest) && a == Cons(v.value, rest);
    }
  }

  /** Looking at the function first is one way: what the server model does may happen. */
  lemma {:induction false} EvalMay<N(!new)>(w: World<N>, t: Table<N>, e: Expr<N>, params: Option<seq<N>>)
    requires WellFounded(t) && Bound(e) <= |t|
    ensures May(w, t, e, params, Eval(w, t, e, params))
    decreases 2 * Bound(e), e, 1
  {
    match e
    case Call(f, args) =>
      EvalArgsMay(w, t, args, params);
      var a := EvalArgs(w, t, args, params);
      assert MayArgs(w, t, args, params, a);
      if Callee(t, f).Ok? && a.Ok? && t[f.id].Defined? && |a.value| == t[f.id].arity {
        EvalMay(w, t, t[f.id].body, Some(a.value));
      }
    case _ =>
  }

  lemma {:induction false} EvalArgsMay<N(!new)>(w: World<N>, t: Table<N>, args: seq<Expr<N>>, params: Option<seq<N>>)
    requires WellFounded(t) && BoundArgs(args) <= |t|
    ensures MayArgs(w, t, args, params, EvalArgs(w, t, args, params))
    decreases 2 * BoundArgs(args), args, 0
  {
    if args != [] {
      EvalMay(w, t, args[0], params);
      EvalArgsMay(w, t, args[1..], params);
    }
  }

  // ---------------------------------------------------------------------------------------
  // Values and failure do not depend on the order

  /** An answer agrees with a final one: the same value, or some error for some error. */
  ghost predicate Settles<T>(o: Outcome<T>, final: Outcome<T>) {
    && (o.Ok? ==> final == o)
    && (o.Err? ==> final.Err?)
  }

  ghost predicate SettlesEntry<N>(entry: Entry<N>, final: Entry<N>) {
    entry.Pending? || entry == final || (entry.Broken? && final.Broken?)
  }

  ghost predicate SettlesTable<N>(t: Table<N>, final: Table<N>, n: nat)
    requires n <= |t| && n <= |final|
  {
    forall i :: 0 <= i < n ==> SettlesEntry(t[i], final[i])
  }

  lemma {:induction false} MaySettles<N(!new)>(w: World<N>, t: Table<N>, final: Table<N>, e: Expr<N>,
                                               params: Option<seq<N>>, o: Outcome<N>)
    requires WellFounded(t) && WellFounded(final) && Bound(e) <= |t| && Bound(e) <= |final|
    requires SettlesTable(t, final, Bound(e)) && Resolved(final, Bound(e)) && May(w, t, e, params, o)
    ensures Settles(o, Eval(w, final, e, params))
    decreases 2 * Bound(e), e, 1
  {
    match e
    case PreviousResult(v) =>
      assert v.Cap? ==> SettlesEntry(t[v.id], final[v.id]);
    case Call(f, args) =>
      assert f.Cap? ==> SettlesEntry(t[f.id], final[f.id]) && !final[f.id].Pending?;
      if Callee(t, f).Ok? || o != Callee(t, f).PropagateFailure() {
        var a := CallCases(w, t, f, args, params, o);
        MayArgsSettle(w, t, final, args, params, a);
        if a.Ok? {
          MayApplySettles(w, t, final, f.id, a.value, o);
        }
      }
    case _ =>
  }

  lemma {:induction false} MayArgsSettle<N(!new)>(w: World<N>, t: Table<N>, final: Table<N>, args: seq<Expr<N>>,
                                                  params: Option<seq<N>>, a: Outcome<seq<N>>)
    requires WellFounded(t) && WellFounded(final) && BoundArgs(args) <= |t| && BoundArgs(args) <= |final|
    requires SettlesTable(t, final, BoundArgs(args)) && Resolved(final, BoundArgs(args))
    requires MayArgs(w, t, args, params, a)
    ensures Settles(a, EvalArgs(w, final, args, params))
    decreases 2 * BoundArgs(args), args, 0
  {
    if args != [] {
      var v, rest := ArgsCases(w, t, args, params, a);
      MaySettles(w, t, final, args[0], params, v);
      if v.Ok? {
        MayArgsSettle(w, t, final, args[1..], params, rest);
      }
    }
  }

  lemma {:induction false} MayApplySettles<N(!new)>(w: World<N>, t: Table<N>, final: Table<N>, id: nat,
                                                    vs: seq<N>, o: Outcome<N>)
    requires WellFounded(t) && WellFounded(final) && id < |t| && id < |final| && Callable(t[id])
    requires SettlesTable(t, final, id + 1) && Resolved(final, id + 1) && MayApply(w, t, id, vs, o)
    ensures Callable(final[id])
    ensures Settles(o, Apply(w, final, id, vs))
    decreases 2 * id + 1
  {
    assert SettlesEntry(t[id], final[id]);
    if t[id].Defined? && |vs| == t[id].arity {
      MaySettles(w, t, final, t[id].body, Some(vs), o);
    }
  }

  /** Resolving more promises takes no possible answer away. */
  lemma {:induction false} MayMonotone<N(!new)>(w: World<N>, t: Table<N>, t': Table<N>, e: Expr<N>,
                                                params: Option<seq<N>>, o: Outcome<N>)
    requires WellFounded(t) && WellFounded(t') && Bound(e) <= |t| && Bound(e) <= |t'|
    requires Extends(t, t', Bound(e)) && May(w, t, e, params, o)
    ensures o.Blocked? || May(w, t', e, params, o)
    decreases 2 * Bound(e), e, 1
  {
    match e
    case Call(f, args) =>
      assert f.Cap? ==> t[f.id].Pending? || t[f.id] == t'[f.id];
      if Callee(t, f).Ok? || o != Callee(t, f).PropagateFailure() {
        var a := CallCases(w, t, f, args, params, o);
        MayArgsMonotone(w, t, t', args, params, a);
        if a.Ok? {
          MayApplyMonotone(w, t, t', f.id, a.value, o);
        }
      }
    case _ => EvalMonotone(w, t, t', e, params);
  }

  lemma {:induction false} MayArgsMonotone<N(!new)>(w: World<N>, t: Table<N>, t': Table<N>, args: seq<Expr<N>>,
                                                    params: Option<seq<N>>, a: Outcome<seq<N>>)
    requires WellFounded(t) && WellFounded(t') && BoundArgs(args) <= |t| && BoundArgs(args) <= |t'|
    requires Extends(t, t', BoundArgs(args)) && MayArgs(w, t, args, params, a)
    ensures a.Blocked? || MayArgs(w, t', args, params, a)
    decreases 2 * BoundArgs(args), args, 0
  {
    if args != [] {
      var v, rest := ArgsCases(w, t, args, params, a);
      MayMonotone(w, t, t', args[0], params, v);
      if v.Ok? {
        MayArgsMonotone(w, t, t', args[1..], params, rest);
      }
    }
  }

  lemma {:induction false} MayApplyMonotone<N(!new)>(w: World<N>, t: Table<N>, t': Table<N>, id: nat,
                                                     vs: seq<N>, o: Outcome<N>)
    requires WellFounded(t) && WellFounded(t') && id < |t| && id < |t'| && Callable(t[id])
    requires Extends(t, t', id + 1) && MayApply(w, t, id, vs, o)
    ensures Callable(t'[id])
    ensures o.Blocked? || MayApply(w, t', id, vs, o)
    decreases 2 * id + 1
  {
    assert t[id] == t'[id];
    if t[id].Defined? && |vs| == t[id].arity {
      MayMonotone(w, t, t', t[id].body, Some(vs), o);
    }
  }

  /** Nothing waits over resolved capabilities, whatever the order. */
  lemma {:induction false} MayProceeds<N(!new)>(w: World<N>, t: Table<N>, e: Expr<N>, params: Option<seq<N>>,
                                                o: Outcome<N>)
    requires WellFounded(t) && Bound(e) <= |t| && Resolved(t, Bound(e)) && May(w, t, e, params, o)
    ensures !o.Blocked?
    decreases 2 * Bound(e), e, 1
  {
    match e
    case Call(f, args) =>
      assert f.Cap? ==> !t[f.id].Pending?;
      if Callee(t, f).Ok? || o != Callee(t, f).PropagateFailure() {
        var a := CallCases(w, t, f, args, params, o);
        MayArgsProceed(w, t, args, params, a);
        if a.Ok? && t[f.id].Defined? && |a.value| == t[f.id].arity {
          MayProceeds(w, t, t[f.id].body, Some(a.value), o);
        }
      }
    case _ => EvalProceeds(w, t, e, params);
  }

  lemma {:induction false} MayArgsProceed<N(!new)>(w: World<N>, t: Table<N>, args: seq<Expr<N>>,
                                                   params: Option<seq<N>>, a: Outcome<seq<N>>)
    requires WellFounded(t) && BoundArgs(args) <= |t| && Resolved(t, BoundArgs(args)) && MayArgs(w, t, args, params, a)
    ensures !a.Blocked?
    decreases 2 * BoundArgs(args), args, 0
  {
    if args != [] {
      var v, rest := ArgsCases(w, t, args, params, a);
      MayProceeds(w, t, args[0], params, v);
      if v.Ok? {
        MayArgsProceed(w, t, args[1..], params, rest);
      }
    }
  }

  /** Over resolved capabilities, the outcomes are one value or errors only. */
  lemma MayOneValue<N(!new)>(w: World<N>, t: Table<N>, e: Expr<N>, params: Option<seq<N>>, o: Outcome<N>)
    requires WellFounded(t) && Bound(e) <= |t| && Resolved(t, Bound(e)) && May(w, t, e, params, o)
    ensures if Eval(w, t, e, params).Ok? then o == Eval(w, t, e, params) else o.Err?
  {
    assert forall i :: 0 <= i < Bound(e) ==> SettlesEntry(t[i], t[i]);
    MaySettles(w, t, t, e, params, o);
    MayProceeds(w, t, e, params, o);
    EvalProceeds(w, t, e, params);
  }

  lemma MayArgsOneValue<N(!new)>(w: World<N>, t: Table<N>, args: seq<Expr<N>>, params: Option<seq<N>>,
                                 a: Outcome<seq<N>>)
    requires WellFounded(t) && BoundArgs(args) <= |t| && Resolved(t, BoundArgs(args)) && MayArgs(w, t, args, params, a)
    ensures if EvalArgs(w, t, args, params).Ok? then a == EvalArgs(w, t, args, params) else a.Err?
  {
    assert forall i :: 0 <= i < BoundArgs(args) ==> SettlesEntry(t[i], t[i]);
    MayArgsSettle(w, t, t, args, params, a);
    MayArgsProceed(w, t, args, params, a);
    EvalArgsProceed(w, t, args, params);
  }

  /** Over any table, resolved or not, whatever goes wrong in the arguments may be the outcome of the
      call: they need not wait for the function. */
  lemma ArgumentsMayComeFirst<N(!new)>(w: World<N>, t: Table<N>, f: CapRef, args: seq<Expr<N>>,
                                       params: Option<seq<N>>, a: Outcome<seq<N>>)
    requires WellFounded(t) && Bound(Call(f, args)) <= |t| && MayArgs(w, t, args, params, a) && !a.Ok?
    ensures May(w, t, Call(f, args), params, a.PropagateFailure())
  {
  }

  /** And so may whatever is wrong with the function. */
  lemma FunctionMayComeFirst<N(!new)>(w: World<N>, t: Table<N>, f: CapRef, args: seq<Expr<N>>, params: Option<seq<N>>)
    requires WellFounded(t) && Bound(Call(f, args)) <= |t| && !Callee(t, f).Ok?
    ensures May(w, t, Call(f, args), params, Callee(t, f).PropagateFailure())
  {
  }

  /** Errors do depend on it: a failed function called on a nil result, and a function that is still
      a promise. */
  lemma PrecedenceExample<N(!new)>(w: World<N>, error: Error)
    ensures var e: Expr<N> := Call(Cap(0), [PreviousResult(Null)]);
            && May(w, [Broken(error)], e, None, Err(error))
            && May(w, [Broken(error)], e, None, Err(NullCapability))
            && May(w, [Pending], e, None, Blocked)
            && May(w, [Pending], e, None, Err(NullCapability))
  {
    EitherFailure(w, [Broken(error)]);
    EitherFailure(w, [Pending]);
  }

  lemma EitherFailure<N(!new)>(w: World<N>, t: Table<N>)
    requires WellFounded(t) && t != [] && !Callee(t, Cap(0)).Ok?
    ensures May(w, t, Call(Cap(0), [PreviousResult(Null)]), None, Callee(t, Cap(0)).PropagateFailure())
    ensures May(w, t, Call(Cap(0), [PreviousResult(Null)]), None, Err(NullCapability))
  {
    NilArgument(w, t);
    FunctionMayComeFirst(w, t, Cap(0), [PreviousResult(Null)], None);
    ArgumentsMayComeFirst(w, t, Cap(0), [PreviousResult(Null)], None, Err(NullCapability));
  }

  lemma NilArgument<N(!new)>(w: World<N>, t: Table<N>)
    requires WellFounded(t)
    ensures MayArgs(w, t, [PreviousResult(Null)], None, Err(NullCapability))
  {
    var args: seq<Expr<N>> := [PreviousResult(Null)];
    assert May(w, t, args[0], None, Err(NullCapability));
  }

  /** Over any table, the outcomes are one value, or none is a value. */
  lemma {:induction false} MayValue<N(!new)>(w: World<N>, t: Table<N>, e: Expr<N>, params: Option<seq<N>>,
                                             o: Outcome<N>)
    requires WellFounded(t) && Bound(e) <= |t| && May(w, t, e, params, o)
    ensures if Eval(w, t, e, params).Ok? then o == Eval(w, t, e, params) else !o.Ok?
    decreases 2 * Bound(e), e, 1
  {
    match e
    case Call(f, args) =>
      if Callee(t, f).Ok? || o != Callee(t, f).PropagateFailure() {
        var a := CallCases(w, t, f, args, params, o);
        MayArgsValue(w, t, args, params, a);
        if a.Ok? {
          MayApplyValue(w, t, f.id, a.value, o);
        }
      }
    case _ =>
  }

  lemma {:induction false} MayArgsValue<N(!new)>(w: World<N>, t: Table<N>, args: seq<Expr<N>>,
                                                 params: Option<seq<N>>, a: Outcome<seq<N>>)
    requires WellFounded(t) && BoundArgs(args) <= |t| && MayArgs(w, t, args, params, a)
    ensures if EvalArgs(w, t, args, params).Ok? then a == EvalArgs(w, t, args, params) else !a.Ok?
    decreases 2 * BoundArgs(args), args, 0
  {
    if args != [] {
      var v, rest := ArgsCases(w, t, args, params, a);
      MayValue(w, t, args[0], params, v);
      if v.Ok? {
        MayArgsValue(w, t, args[1..], params, rest);
      }
    }
  }

  lemma {:induction false} MayApplyValue<N(!new)>(w: World<N>, t: Table<N>, id: nat, vs: seq<N>, o: Outcome<N>)
    requires WellFounded(t) && id < |t| && Callable(t[id]) && MayApply(w, t, id, vs, o)
    ensures if Apply(w, t, id, vs).Ok? then o == Apply(w, t, id, vs) else !o.Ok?
    decreases 2 * id + 1
  {
    if t[id].Defined? && |vs| == t[id].arity {
      MayValue(w, t, t[id].body, Some(vs), o);
    }
  }

  // ---------------------------------------------------------------------------------------
  // Schedules in which every call may go either way

  ghost predicate MayResolve<N(!new)>(w: World<N>, t: Table<N>, r: Request<N>, entry: Entry<N>)
    requires WellFounded(t) && RequestBound(r) <= |t|
  {
    if r.Evaluate? then exists o :: May(w, t, r.expr, None, o) && entry == Settle(o)
    else entry == Resolve(w, t, r)
  }

  ghost predicate MayStep<N(!new)>(w: World<N>, reqs: seq<Request<N>>, t: Table<N>, t': Table<N>, i: nat)
    requires ValidSession(reqs)
  {
    && |t| == |t'| == |reqs| && WellFounded(t) && i < |t| && t[i].Pending?
    && RequestBound(reqs[i]) <= i
    && MayResolve(w, t, reqs[i], t'[i]) && !t'[i].Pending?
    && t' == t[i := t'[i]]
  }

  ghost predicate MayRun<N(!new)>(w: World<N>, reqs: seq<Request<N>>, order: seq<nat>, tables: seq<Table<N>>)
    requires ValidSession(reqs)
  {
    && |tables| == |order| + 1
    && tables[0] == AllPending(reqs)
    && forall k :: 0 <= k < |order| ==> MayStep(w, reqs, tables[k], tables[k + 1], order[k])
  }

  ghost predicate Settled<N>(w: World<N>, reqs: seq<Request<N>>, t: Table<N>)
    requires ValidSession(reqs)
  {
    |t| == |reqs| && WellFounded(t) && SettlesTable(t, Sequential(w, reqs), |reqs|)
  }

  lemma SequentialResolved<N>(w: World<N>, reqs: seq<Request<N>>)
    requires ValidSession(reqs)
    ensures Resolved(Sequential(w, reqs), |reqs|)
  {
    forall i | 0 <= i < |reqs|
      ensures !Sequential(w, reqs)[i].Pending?
    {
      SequentialSolves(w, reqs, i);
    }
  }

  lemma StepSettles<N(!new)>(w: World<N>, reqs: seq<Request<N>>, t: Table<N>, t': Table<N>, i: nat)
    requires ValidSession(reqs) && Settled(w, reqs, t) && MayStep(w, reqs, t, t', i)
    ensures Settled(w, reqs, t')
  {
    var final := Sequential(w, reqs);
    SequentialSolves(w, reqs, i);
    SequentialResolved(w, reqs);
    if reqs[i].Evaluate? {
      var o :| May(w, t, reqs[i].expr, None, o) && t'[i] == Settle(o);
      MaySettles(w, t, final, reqs[i].expr, None, o);
    }
    assert SettlesEntry(t'[i], final[i]);
  }

  /** Every answer of every such schedule has the value strict sequential order gives it, or fails
      where sequential order fails. */
  lemma {:induction false} ValuesIgnorePrecedence<N(!new)>(w: World<N>, reqs: seq<Request<N>>, order: seq<nat>,
                                                           tables: seq<Table<N>>, k: nat)
    requires ValidSession(reqs) && MayRun(w, reqs, order, tables) && k < |tables|
    ensures Settled(w, reqs, tables[k])
    ensures var t, final := tables[k], Sequential(w, reqs);
            && |t| == |reqs|
            && forall i :: 0 <= i < |reqs| ==>
                 t[i].Pending? || t[i] == final[i] || (t[i].Broken? && final[i].Broken?)
  {
    if k > 0 {
      ValuesIgnorePrecedence(w, reqs, order, tables, k - 1);
      StepSettles(w, reqs, tables[k - 1], tables[k], order[k - 1]);
    }
    assert forall i :: 0 <= i < |reqs| ==> SettlesEntry(tables[k][i], Sequential(w, reqs)[i]);
  }

  /** Every waiting request may be answered with every outcome that does not wait, in any order. */
  lemma MayStepExactly<N(!new)>(w: World<N>, reqs: seq<Request<N>>, t: Table<N>, i: nat, entry: Entry<N>)
    requires ValidSession(reqs) && |t| == |reqs| && WellFounded(t) && i < |t|
    ensures RequestBound(reqs[i]) <= i
    ensures MayStep(w, reqs, t, t[i := entry], i) <==>
            && t[i].Pending? && !entry.Pending?
            && (if reqs[i].Evaluate? then exists o :: May(w, t, reqs[i].expr, None, o) && entry == Settle(o)
                else entry == Resolve(w, t, reqs[i]))
  {
    assert RequestBound(reqs[i]) <= i;
  }

  /** As soon as the entries below its bound are there, a waiting request is answered whatever order
      its calls take: it has a possible outcome and none of them waits. */
  lemma ProgressEitherWay<N(!new)>(w: World<N>, reqs: seq<Request<N>>, t: Table<N>, i: nat)
    requires ValidSession(reqs) && |t| == |reqs| && WellFounded(t) && i < |t| && RequestBound(reqs[i]) <= i
    requires t[i].Pending? && (reqs[i].Evaluate? ==> Resolved(t, RequestBound(reqs[i])))
    ensures exists t' :: MayStep(w, reqs, t, t', i)
    ensures reqs[i].Evaluate? ==> forall o :: May(w, t, reqs[i].expr, None, o) ==> !o.Blocked?
  {
    var t' := t[i := Resolve(w, t, reqs[i])];
    if reqs[i].Evaluate? {
      EvalMay(w, t, reqs[i].expr, None);
      EvalProceeds(w, t, reqs[i].expr, None);
      forall o | May(w, t, reqs[i].expr, None, o)
        ensures !o.Blocked?
      {
        MayProceeds(w, t, reqs[i].expr, None, o);
      }
    }
    assert MayStep(w, reqs, t, t', i);
  }

  /** Runs are exactly the chains of such steps. */
  lemma MayRunsAreChains<N(!new)>(w: World<N>, reqs: seq<Request<N>>, order: seq<nat>, tables: seq<Table<N>>,
                                  i: nat, t': Table<N>)
    requires ValidSession(reqs)
    ensures MayRun(w, reqs, [], [AllPending(reqs)])
    ensures |tables| == |order| + 1 ==>
              (MayRun(w, reqs, order + [i], tables + [t']) <==>
               MayRun(w, reqs, order, tables) && MayStep(w, reqs, tables[|order|], t', i))
  {
    var order', tables' := order + [i], tables + [t'];
    if |tables| == |order| + 1 {
      assert order'[|order|] == i && tables'[|order| + 1] == t' && tables'[|order|] == tables[|order|];
      if MayRun(w, reqs, order', tables') {
        forall k | 0 <= k < |order|
          ensures MayStep(w, reqs, tables[k], tables[k + 1], order[k])
        {
          assert MayStep(w, reqs, tables'[k], tables'[k + 1], order'[k]);
        }
        assert MayStep(w, reqs, tables'[|order|], tables'[|order| + 1], order'[|order|]);
      }
    }
  }
}
