/** Which expressions succeed: a checker that looks at shapes only, never at a number. */
module StaticCheck {
  import opened Wrappers
  import opened Calculator

  /** `arity` is the number of parameters in scope; `None` outside any function. */
  predicate Accepts<N>(t: Table<N>, e: Expr<N>, arity: Option<nat>)
    requires WellFounded(t) && Bound(e) <= |t|
    decreases 2 * Bound(e), e, 1
  {
    match e
    case Literal(_) => true
    case PreviousResult(v) => v.Cap? && t[v.id].Value?
    case Parameter(k) => arity.Some? && k < arity.value
    case Call(f, args) => f.Cap? && AcceptsArgs(t, args, arity) && AcceptsCount(t, f.id, |args|)
    case Unknown(_) => false
  }

  predicate AcceptsArgs<N>(t: Table<N>, args: seq<Expr<N>>, arity: Option<nat>)
    requires WellFounded(t) && BoundArgs(args) <= |t|
    decreases 2 * BoundArgs(args), args, 0
  {
    args != [] ==> Accepts(t, args[0], arity) && AcceptsArgs(t, args[1..], arity)
  }

  /** Entry `id` is a function of `n` arguments whose body is itself accepted. */
  predicate AcceptsCount<N>(t: Table<N>, id: nat, n: nat)
    requires WellFounded(t) && id < |t|
    decreases 2 * id + 1
  {
    match t[id]
    case Base(_) => n == 2
    case Defined(arity, body) => n == arity && Accepts(t, body, Some(n))
    case Callback => true
    case _ => false
  }

  /** No client function in the table ever refuses (vacuous when the table holds none). */
  ghost predicate CallbacksAnswer<N(!new)>(w: World<N>, t: Table<N>) {
    forall id: nat, vs :: id < |t| && t[id].Callback? ==> w.callback(id, vs).Answer?
  }

  function Count<N>(params: Option<seq<N>>): Option<nat> {
    if params.None? then None else Some(|params.value|)
  }

  /** The checker is exact: success implies acceptance, and acceptance implies success as long
      as the client's own functions answer. */
  lemma {:induction false} ExactSuccess<N(!new)>(w: World<N>, t: Table<N>, e: Expr<N>, params: Option<seq<N>>)
    requires WellFounded(t) && Bound(e) <= |t|
    ensures Eval(w, t, e, params).Ok? ==> Accepts(t, e, Count(params))
    ensures CallbacksAnswer(w, t) ==> (Eval(w, t, e, params).Ok? <==> Accepts(t, e, Count(params)))
    decreases 2 * Bound(e), e, 1
  {
    match e
    case Call(f, args) =>
      if f.Cap? {
        ExactSuccessArgs(w, t, args, params);
        var vs := EvalArgs(w, t, args, params);
        if vs.Ok? && Callee(t, f).Ok? {
          ExactSuccessCall(w, t, f.id, vs.value);
        }
      }
    case _ =>
  }

  lemma {:induction false} ExactSuccessArgs<N(!new)>(w: World<N>, t: Table<N>, args: seq<Expr<N>>,
                                                     params: Option<seq<N>>)
    requires WellFounded(t) && BoundArgs(args) <= |t|
    ensures EvalArgs(w, t, args, params).Ok? ==> AcceptsArgs(t, args, Count(params))
    ensures CallbacksAnswer(w, t) ==> (EvalArgs(w, t, args, params).Ok? <==> AcceptsArgs(t, args, Count(params)))
    decreases 2 * BoundArgs(args), args, 0
  {
    if args != [] {
      ExactSuccess(w, t, args[0], params);
      ExactSuccessArgs(w, t, args[1..], params);
    }
  }

  lemma {:induction false} ExactSuccessCall<N(!new)>(w: World<N>, t: Table<N>, id: nat, vs: seq<N>)
    requires WellFounded(t) && id < |t| && Callable(t[id])
    ensures Apply(w, t, id, vs).Ok? ==> AcceptsCount(t, id, |vs|)
    ensures CallbacksAnswer(w, t) ==> (Apply(w, t, id, vs).Ok? <==> AcceptsCount(t, id, |vs|))
    decreases 2 * id + 1
  {
    if t[id].Defined? {
      ExactSuccess(w, t, t[id].body, Some(vs));
    }
  }

  /** The assumption is the weakest that makes acceptance mean success. */
  lemma CallbacksAnswerExactly<N(!new)>(w: World<N>, t: Table<N>)
    requires WellFounded(t)
    ensures CallbacksAnswer(w, t) <==>
            forall e, params :: Bound(e) <= |t| && Accepts(t, e, Count(params)) ==> Eval(w, t, e, params).Ok?
  {
    if CallbacksAnswer(w, t) {
      forall e, params | Bound(e) <= |t| && Accepts(t, e, Count(params))
        ensures Eval(w, t, e, params).Ok?
      {
        ExactSuccess(w, t, e, params);
      }
    } else {
      var id: nat, vs :| id < |t| && t[id].Callback? && !w.callback(id, vs).Answer?;
      var e := Call(Cap(id), Literals(vs));
      EvalLiterals(w, t, vs, None);
      ExactSuccessArgs(w, t, Literals(vs), None);
      assert AcceptsArgs(t, e.args, Count<N>(None)) && AcceptsCount(t, id, |e.args|);
      assert Accepts(t, e, Count<N>(None));
      assert Eval(w, t, e, None) == Apply(w, t, id, vs);
    }
  }

  // ---------------------------------------------------------------------------------------
  // Erasing the numbers

  function Erase<N>(e: Expr<N>): Expr<()> {
    match e
    case Literal(_) => Literal(())
    case PreviousResult(v) => PreviousResult(v)
    case Parameter(k) => Parameter(k)
    case Call(f, args) => Call(f, EraseArgs(args))
    case Unknown(tag) => Unknown(tag)
  }

  function EraseArgs<N>(args: seq<Expr<N>>): (r: seq<Expr<()>>)
    ensures |r| == |args|
  {
    if args == [] then [] else [Erase(args[0])] + EraseArgs(args[1..])
  }

  function EraseEntry<N>(entry: Entry<N>): Entry<()> {
    match entry
    case Base(op) => Base(op)
    case Defined(arity, body) => Defined(arity, Erase(body))
    case Value(_) => Value(())
    case Callback => Callback
    case Broken(error) => Broken(error)
    case Pending => Pending
  }

  function EraseTable<N>(t: Table<N>): Table<()> {
    seq(|t|, i requires 0 <= i < |t| => EraseEntry(t[i]))
  }

  lemma {:induction false} EraseBound<N>(e: Expr<N>)
    ensures Bound(Erase(e)) == Bound(e)
    decreases e, 1
  {
    match e
    case Call(f, args) => EraseArgsBound(args);
    case _ =>
  }

  lemma {:induction false} EraseArgsBound<N>(args: seq<Expr<N>>)
    ensures BoundArgs(EraseArgs(args)) == BoundArgs(args)
    decreases args, 0
  {
    if args != [] {
      EraseBound(args[0]);
      EraseArgsBound(args[1..]);
      assert EraseArgs(args)[1..] == EraseArgs(args[1..]);
    }
  }

  lemma EraseWellFounded<N>(t: Table<N>)
    requires WellFounded(t)
    ensures WellFounded(EraseTable(t))
  {
    forall i | 0 <= i < |t| && t[i].Defined?
      ensures Bound(EraseTable(t)[i].body) <= i
    {
      EraseBound(t[i].body);
    }
  }

  lemma {:induction false} AcceptsErased<N>(t: Table<N>, e: Expr<N>, arity: Option<nat>)
    requires WellFounded(t) && Bound(e) <= |t|
    ensures WellFounded(EraseTable(t)) && Bound(Erase(e)) <= |t|
    ensures Accepts(t, e, arity) <==> Accepts(EraseTable(t), Erase(e), arity)
    decreases 2 * Bound(e), e, 1
  {
    EraseWellFounded(t);
    EraseBound(e);
    match e
    case Call(f, args) =>
      AcceptsArgsErased(t, args, arity);
      if f.Cap? && t[f.id].Defined? {
        AcceptsErased(t, t[f.id].body, Some(|args|));
      }
    case _ =>
  }

  lemma {:induction false} AcceptsArgsErased<N>(t: Table<N>, args: seq<Expr<N>>, arity: Option<nat>)
    requires WellFounded(t) && BoundArgs(args) <= |t|
    ensures WellFounded(EraseTable(t)) && BoundArgs(EraseArgs(args)) <= |t|
    ensures AcceptsArgs(t, args, arity) <==> AcceptsArgs(EraseTable(t), EraseArgs(args), arity)
    decreases 2 * BoundArgs(args), args, 0
  {
    EraseWellFounded(t);
    EraseArgsBound(args);
    if args != [] {
      AcceptsErased(t, args[0], arity);
      AcceptsArgsErased(t, args[1..], arity);
      assert EraseArgs(args)[1..] == EraseArgs(args[1..]);
    }
  }

  /** Success never depends on a number: two evaluations that differ only in literals, stored
      values, arguments, operators' meanings and even the number type succeed together. */
  lemma SuccessIgnoresNumbers<M(!new), N(!new)>(
      w: World<M>, t: Table<M>, e: Expr<M>, params: Option<seq<M>>,
      w': World<N>, t': Table<N>, e': Expr<N>, params': Option<seq<N>>)
    requires WellFounded(t) && Bound(e) <= |t| && CallbacksAnswer(w, t)
    requires WellFounded(t') && Bound(e') <= |t'| && CallbacksAnswer(w', t')
    requires EraseTable(t) == EraseTable(t') && Erase(e) == Erase(e') && Count(params) == Count(params')
    ensures Eval(w, t, e, params).Ok? <==> Eval(w', t', e', params').Ok?
  {
    ExactSuccess(w, t, e, params);
    ExactSuccess(w', t', e', params');
    AcceptsErased(t, e, Count(params));
    AcceptsErased(t', e', Count(params'));
  }
}
