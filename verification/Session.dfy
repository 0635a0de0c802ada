/** Pipelined sessions: a client sends requests that name the results of earlier requests
    before those results exist, and the server resolves them as they become ready. */
module Session {
  import opened Wrappers
  import opened Calculator

  datatype Request<+N> =
    | Evaluate(expr: Expr<N>)
    | DefFunction(arity: int, body: Expr<N>)
    | GetOperator(code: nat)
    | Export                                  // the client passes a function of its own

  function RequestBound<N>(r: Request<N>): nat {
    match r
    case Evaluate(expr) => Bound(expr)
    case DefFunction(_, body) => Bound(body)
    case _ => 0
  }

  /** A request names only the results of earlier requests. */
  predicate ValidSession<N>(reqs: seq<Request<N>>) {
    forall i :: 0 <= i < |reqs| ==> RequestBound(reqs[i]) <= i
  }

  /** The operators map (go/main.go:199-204), keyed by the enumerant's code. */
  function OperatorOf(code: nat): Option<Operator> {
    match code
    case 0 => Some(Add)
    case 1 => Some(Subtract)
    case 2 => Some(Multiply)
    case 3 => Some(Divide)
    case _ => None
  }

  function Settle<N>(o: Outcome<N>): Entry<N> {
    match o
    case Ok(v) => Value(v)
    case Err(error) => Broken(error)
    case Blocked => Pending
  }

  /** What a request's result capability becomes, given the table so far
      (go/main.go:65-94, 157-172, 206-213). */
  function Resolve<N>(w: World<N>, t: Table<N>, r: Request<N>): Entry<N>
    requires WellFounded(t) && RequestBound(r) <= |t|
  {
    match r
    case Evaluate(expr) => Settle(Eval(w, t, expr, None))
    case DefFunction(arity, body) => Defined(arity, body)
    case GetOperator(code) =>
      (match OperatorOf(code)
       case Some(op) => Base(op)
       case None => Broken(OperatorNotFound(code)))
    case Export => Callback
  }

  /** Strict sequential order: each request is resolved before the next one is looked at. */
  function Sequential<N>(w: World<N>, reqs: seq<Request<N>>): (t: Table<N>)
    requires ValidSession(reqs)
    ensures |t| == |reqs| && WellFounded(t)
  {
    if reqs == [] then []
    else
      var n := |reqs| - 1;
      var t := Sequential(w, reqs[..n]);
      t + [Resolve(w, t, reqs[n])]
  }

  // ---------------------------------------------------------------------------------------
  // Tables that know more

  /** Below `n`, `t'` agrees with `t` wherever `t` is already resolved. */
  ghost predicate Extends<N>(t: Table<N>, t': Table<N>, n: nat)
    requires n <= |t| && n <= |t'|
  {
    forall i :: 0 <= i < n ==> t[i].Pending? || t[i] == t'[i]
  }

  predicate Resolved<N>(t: Table<N>, n: nat)
    requires n <= |t|
  {
    forall i :: 0 <= i < n ==> !t[i].Pending?
  }

  /** Resolving more promises never changes an outcome that was not waiting. */
  lemma {:induction false} EvalMonotone<N>(w: World<N>, t: Table<N>, t': Table<N>, e: Expr<N>, params: Option<seq<N>>)
    requires WellFounded(t) && WellFounded(t') && Bound(e) <= |t| && Bound(e) <= |t'|
    requires Extends(t, t', Bound(e))
    ensures Eval(w, t, e, params).Blocked? || Eval(w, t, e, params) == Eval(w, t', e, params)
    decreases 2 * Bound(e), e, 1
  {
    match e
    case Call(f, args) =>
      var callee := Callee(t, f);
      if callee.Ok? {
        EvalArgsMonotone(w, t, t', args, params);
        var vs := EvalArgs(w, t, args, params);
        if vs.Ok? {
          ApplyMonotone(w, t, t', callee.value, vs.value);
        }
      }
    case _ =>
  }

  lemma {:induction false} EvalArgsMonotone<N>(w: World<N>, t: Table<N>, t': Table<N>, args: seq<Expr<N>>,
                                               params: Option<seq<N>>)
    requires WellFounded(t) && WellFounded(t') && BoundArgs(args) <= |t| && BoundArgs(args) <= |t'|
    requires Extends(t, t', BoundArgs(args))
    ensures EvalArgs(w, t, args, params).Blocked? || EvalArgs(w, t, args, params) == EvalArgs(w, t', args, params)
    decreases 2 * BoundArgs(args), args, 0
  {
    if args != [] {
      EvalMonotone(w, t, t', args[0], params);
      EvalArgsMonotone(w, t, t', args[1..], params);
    }
  }

  lemma {:induction false} ApplyMonotone<N>(w: World<N>, t: Table<N>, t': Table<N>, id: nat, vs: seq<N>)
    requires WellFounded(t) && WellFounded(t') && id < |t| && id < |t'| && Callable(t[id])
    requires Extends(t, t', id + 1)
    ensures Callable(t'[id])
    ensures Apply(w, t, id, vs).Blocked? || Apply(w, t, id, vs) == Apply(w, t', id, vs)
    decreases 2 * id + 1
  {
    assert t[id] == t'[id];
    if t[id].Defined? && |vs| == t[id].arity {
      EvalMonotone(w, t, t', t[id].body, Some(vs));
    }
  }

  /** An evaluation over resolved capabilities never waits. */
  lemma {:induction false} EvalProceeds<N>(w: World<N>, t: Table<N>, e: Expr<N>, params: Option<seq<N>>)
    requires WellFounded(t) && Bound(e) <= |t| && Resolved(t, Bound(e))
    ensures !Eval(w, t, e, params).Blocked?
    decreases 2 * Bound(e), e, 1
  {
    match e
    case Call(f, args) =>
      if Callee(t, f).Ok? {
        EvalArgsProceed(w, t, args, params);
        if t[f.id].Defined? && EvalArgs(w, t, args, params).Ok? {
          EvalProceeds(w, t, t[f.id].body, Some(EvalArgs(w, t, args, params).value));
        }
      }
    case _ =>
  }

  lemma {:induction false} EvalArgsProceed<N>(w: World<N>, t: Table<N>, args: seq<Expr<N>>, params: Option<seq<N>>)
    requires WellFounded(t) && BoundArgs(args) <= |t| && Resolved(t, BoundArgs(args))
    ensures !EvalArgs(w, t, args, params).Blocked?
    decreases 2 * BoundArgs(args), args, 0
  {
    if args != [] {
      EvalProceeds(w, t, args[0], params);
      EvalArgsProceed(w, t, args[1..], params);
    }
  }

  /** Evaluation looks only at the entries below its bound. */
  lemma EvalLocal<N>(w: World<N>, t: Table<N>, t': Table<N>, e: Expr<N>, params: Option<seq<N>>)
    requires WellFounded(t) && WellFounded(t') && Bound(e) <= |t| && Bound(e) <= |t'|
    requires Resolved(t, Bound(e)) && Extends(t, t', Bound(e))
    ensures Eval(w, t, e, params) == Eval(w, t', e, params)
  {
    EvalProceeds(w, t, e, params);
    EvalMonotone(w, t, t', e, params);
  }

  /** The sequential table is the solution of the session's equations: every entry is what its
      request gives in the finished table, and nothing is left waiting. */
  lemma {:induction false} SequentialSolves<N>(w: World<N>, reqs: seq<Request<N>>, i: nat)
    requires ValidSession(reqs) && i < |reqs|
    ensures var t := Sequential(w, reqs);
            && t[i] == Resolve(w, t, reqs[i])
            && t[i] == Resolve(w, t[..i], reqs[i])
            && !t[i].Pending?
            && t[..i] == Sequential(w, reqs[..i])
    decreases |reqs|
  {
    var n := |reqs| - 1;
    var t, t0 := Sequential(w, reqs), Sequential(w, reqs[..n]);
    forall j | 0 <= j < n
      ensures !t0[j].Pending?
    {
      SequentialSolves(w, reqs[..n], j);
    }
    assert t[..n] == t0;
    if i == n {
      if reqs[n].Evaluate? {
        EvalLocal(w, t0, t, reqs[n].expr, None);
        EvalProceeds(w, t0, reqs[n].expr, None);
      }
    } else {
      SequentialSolves(w, reqs[..n], i);
      assert reqs[..n][..i] == reqs[..i];
      assert t[..i] == t0[..i];
      if reqs[i].Evaluate? {
        EvalLocal(w, t0, t, reqs[i].expr, None);
      }
    }
  }

  // ---------------------------------------------------------------------------------------
  // Schedules

  /** Every request has been sent and none has been answered. */
  function AllPending<N>(reqs: seq<Request<N>>): Table<N> {
    seq(|reqs|, _ => Pending)
  }

  /** Request `i` is answered now: it was waiting and everything it reads is there. */
  ghost predicate Step<N>(w: World<N>, reqs: seq<Request<N>>, t: Table<N>, t': Table<N>, i: nat)
    requires ValidSession(reqs)
  {
    && |t| == |reqs| && WellFounded(t) && i < |t| && t[i].Pending?
    && !Resolve(w, t, reqs[i]).Pending?
    && t' == t[i := Resolve(w, t, reqs[i])]
  }

  /** The tables a server goes through when it answers the requests `order[0]`, `order[1]`, ... */
  ghost predicate IsRun<N>(w: World<N>, reqs: seq<Request<N>>, order: seq<nat>, tables: seq<Table<N>>)
    requires ValidSession(reqs)
  {
    && |tables| == |order| + 1
    && tables[0] == AllPending(reqs)
    && forall k :: 0 <= k < |order| ==> Step(w, reqs, tables[k], tables[k + 1], order[k])
  }

  /** What every step of every schedule keeps. */
  ghost predicate Consistent<N>(w: World<N>, reqs: seq<Request<N>>, t: Table<N>)
    requires ValidSession(reqs)
  {
    |t| == |reqs| && WellFounded(t) && Extends(t, Sequential(w, reqs), |reqs|)
  }

  lemma StepConsistent<N>(w: World<N>, reqs: seq<Request<N>>, t: Table<N>, t': Table<N>, i: nat)
    requires ValidSession(reqs) && Consistent(w, reqs, t) && Step(w, reqs, t, t', i)
    ensures Consistent(w, reqs, t')
  {
    var final := Sequential(w, reqs);
    SequentialSolves(w, reqs, i);
    if reqs[i].Evaluate? {
      EvalMonotone(w, t, final, reqs[i].expr, None);
    }
    assert t'[i] == final[i];
  }

  lemma {:induction false} RunConsistent<N>(w: World<N>, reqs: seq<Request<N>>, order: seq<nat>,
                                            tables: seq<Table<N>>, k: nat)
    requires ValidSession(reqs) && IsRun(w, reqs, order, tables) && k < |tables|
    ensures Consistent(w, reqs, tables[k])
  {
    if k > 0 {
      RunConsistent(w, reqs, order, tables, k - 1);
      StepConsistent(w, reqs, tables[k - 1], tables[k], order[k - 1]);
    }
  }

  /** Schedule independence: at every moment of every interleaving, each answered request has the
      answer strict sequential order gives it. Here a call looks at its function before its
      arguments, also when the function is still a promise; modules `Precedence` and `Determinacy` have
      the theorems for either order. */
  lemma ScheduleIndependence<N>(w: World<N>, reqs: seq<Request<N>>, order: seq<nat>, tables: seq<Table<N>>)
    requires ValidSession(reqs) && IsRun(w, reqs, order, tables)
    ensures forall k, i :: 0 <= k < |tables| && 0 <= i < |reqs| ==>
              |tables[k]| == |reqs| && (tables[k][i].Pending? || tables[k][i] == Sequential(w, reqs)[i])
  {
    forall k | 0 <= k < |tables|
      ensures Consistent(w, reqs, tables[k])
    {
      RunConsistent(w, reqs, order, tables, k);
    }
  }

  /** Exactly the waiting requests whose evaluation does not wait can be answered now, in any order,
      and each has one possible answer. */
  lemma StepExactly<N>(w: World<N>, reqs: seq<Request<N>>, t: Table<N>, i: nat)
    requires ValidSession(reqs) && Consistent(w, reqs, t) && i < |t|
    ensures RequestBound(reqs[i]) <= i
    ensures Step(w, reqs, t, t[i := Sequential(w, reqs)[i]], i) <==>
            t[i].Pending? && (reqs[i].Evaluate? ==> !Eval(w, t, reqs[i].expr, None).Blocked?)
    ensures forall t' :: Step(w, reqs, t, t', i) ==> t' == t[i := Sequential(w, reqs)[i]]
  {
    assert RequestBound(reqs[i]) <= i;
    SequentialSolves(w, reqs, i);
    if reqs[i].Evaluate? {
      EvalMonotone(w, t, Sequential(w, reqs), reqs[i].expr, None);
    }
  }

  /** No request waits for more than the capabilities it names and what they name: as soon as the
      entries below its bound are there, it can be answered. A request that evaluates nothing can
      be answered at once. */
  lemma Progress<N>(w: World<N>, reqs: seq<Request<N>>, t: Table<N>, i: nat)
    requires ValidSession(reqs) && Consistent(w, reqs, t) && i < |t| && RequestBound(reqs[i]) <= i
    requires t[i].Pending? && (reqs[i].Evaluate? ==> Resolved(t, RequestBound(reqs[i])))
    ensures Step(w, reqs, t, t[i := Sequential(w, reqs)[i]], i)
  {
    if reqs[i].Evaluate? {
      EvalProceeds(w, t, reqs[i].expr, None);
    }
    StepExactly(w, reqs, t, i);
  }

  /** A concrete case: a literal is answered before the operator requested earlier. */
  lemma OutOfOrderExample<N>(w: World<N>, n: N)
    ensures var reqs: seq<Request<N>> := [GetOperator(0), Evaluate(Literal(n))];
            Step(w, reqs, AllPending(reqs), [Pending, Value(n)], 1)
  {
    var reqs: seq<Request<N>> := [GetOperator(0), Evaluate(Literal(n))];
    assert AllPending(reqs) == [Pending, Pending];
    assert AllPending(reqs)[1 := Value(n)] == [Pending, Value(n)];
  }

  /** Runs are exactly the chains of steps from the moment every request waits. */
  lemma RunsAreChains<N>(w: World<N>, reqs: seq<Request<N>>, order: seq<nat>, tables: seq<Table<N>>,
                         i: nat, t': Table<N>)
    requires ValidSession(reqs)
    ensures IsRun(w, reqs, [], [AllPending(reqs)])
    ensures |tables| == |order| + 1 ==>
              (IsRun(w, reqs, order + [i], tables + [t']) <==>
               IsRun(w, reqs, order, tables) && Step(w, reqs, tables[|order|], t', i))
  {
    var order', tables' := order + [i], tables + [t'];
    if |tables| == |order| + 1 {
      assert order'[|order|] == i && tables'[|order| + 1] == t' && tables'[|order|] == tables[|order|];
      if IsRun(w, reqs, order', tables') {
        forall k | 0 <= k < |order|
          ensures Step(w, reqs, tables[k], tables[k + 1], order[k])
        {
          assert Step(w, reqs, tables'[k], tables'[k + 1], order'[k]);
        }
        assert Step(w, reqs, tables'[|order|], tables'[|order| + 1], order'[|order|]);
      }
    }
  }

  lemma {:induction false} OldestPending<N>(t: Table<N>, n: nat) returns (i: nat)
    requires n <= |t| && !Resolved(t, n)
    ensures i < n && t[i].Pending? && Resolved(t, i)
  {
    if Resolved(t, n - 1) {
      i := n - 1;
    } else {
      i := OldestPending(t, n - 1);
    }
  }

  ghost function PendingIds<N>(t: Table<N>): set<nat> {
    set i: nat | i < |t| && t[i].Pending?
  }

  /** A run is exactly as far as the number of steps it has made, so it has at most one step per
      request. */
  lemma {:induction false} RunLength<N>(w: World<N>, reqs: seq<Request<N>>, order: seq<nat>, tables: seq<Table<N>>,
                                        k: nat)
    requires ValidSession(reqs) && IsRun(w, reqs, order, tables) && k < |tables|
    ensures |tables[k]| == |reqs| && |PendingIds(tables[k])| == |reqs| - k
  {
    if k == 0 {
      PendingAll(reqs);
    } else {
      RunLength(w, reqs, order, tables, k - 1);
      var i := order[k - 1];
      assert Step(w, reqs, tables[k - 1], tables[k], i);
      assert PendingIds(tables[k]) == PendingIds(tables[k - 1]) - {i};
    }
  }

  lemma {:induction false} PendingAll<N>(reqs: seq<Request<N>>)
    ensures |PendingIds(AllPending(reqs))| == |reqs|
  {
    if reqs != [] {
      var n := |reqs| - 1;
      PendingAll(reqs[..n]);
      assert PendingIds(AllPending(reqs)) == PendingIds(AllPending(reqs[..n])) + {n};
    }
  }

  /** Confluence: a run that cannot go on has answered every request, in one step each, and its
      table is the sequential one. */
  lemma {:induction false} Confluence<N>(w: World<N>, reqs: seq<Request<N>>, order: seq<nat>, tables: seq<Table<N>>)
    requires ValidSession(reqs) && IsRun(w, reqs, order, tables)
    requires forall i, t' :: !Step(w, reqs, tables[|order|], t', i)
    ensures tables[|order|] == Sequential(w, reqs) && |order| == |reqs|
  {
    var t := tables[|order|];
    RunConsistent(w, reqs, order, tables, |order|);
    RunLength(w, reqs, order, tables, |order|);
    if !Resolved(t, |t|) {
      var i := OldestPending(t, |t|);
      assert RequestBound(reqs[i]) <= i;
      Progress(w, reqs, t, i);
    }
    assert PendingIds(t) == {};
  }
}
