/** Expanding every call of a defined function into its body, with the argument expressions in
    place of the parameters, until only operators and the client's functions are called.

    The server evaluates strictly, so a failing argument fails the call even if the body never
    uses it; expansion forgets such an argument. This module proves that this is the only way in
    which expansion can change an outcome. */
module Inlining {
  import opened Wrappers
  import opened Calculator
  import StaticCheck
  import Substitution

  /** A parameter with no argument becomes an expression that fails wherever it stands. */
  function Stuck<N>(): Expr<N> {
    PreviousResult(Null)
  }

  /** `e` with argument expressions in place of its parameters. */
  function Splice<N>(e: Expr<N>, actuals: seq<Expr<N>>): (r: Expr<N>)
    ensures Bound(r) <= Max(Bound(e), BoundArgs(actuals))
    decreases e, 1
  {
    match e
    case Parameter(k) =>
      if k < |actuals| then
        BoundArgsAt(actuals, k);
        actuals[k]
      else Stuck()
    case Call(f, args) => Call(f, SpliceArgs(args, actuals))
    case _ => e
  }

  function SpliceArgs<N>(args: seq<Expr<N>>, actuals: seq<Expr<N>>): (r: seq<Expr<N>>)
    ensures |r| == |args| && BoundArgs(r) <= Max(BoundArgs(args), BoundArgs(actuals))
    decreases args, 0
  {
    if args == [] then []
    else
      var r := [Splice(args[0], actuals)] + SpliceArgs(args[1..], actuals);
      assert r[1..] == SpliceArgs(args[1..], actuals);
      r
  }

  /** The function is defined by a body and takes `n` arguments. */
  predicate Expandable<N>(t: Table<N>, f: CapRef, n: nat)
    requires RefBound(f) <= |t|
  {
    f.Cap? && t[f.id].Defined? && t[f.id].arity == n
  }

  function Inline<N>(t: Table<N>, e: Expr<N>): (r: Expr<N>)
    requires WellFounded(t) && Bound(e) <= |t|
    ensures Bound(r) <= Bound(e)
    decreases Bound(e), e, 1
  {
    match e
    case Call(f, args) =>
      var actuals := InlineArgs(t, args);
      if Expandable(t, f, |args|) then Splice(Inline(t, t[f.id].body), actuals)
      else Call(f, actuals)
    case _ => e
  }

  function InlineArgs<N>(t: Table<N>, args: seq<Expr<N>>): (r: seq<Expr<N>>)
    requires WellFounded(t) && BoundArgs(args) <= |t|
    ensures |r| == |args| && BoundArgs(r) <= BoundArgs(args)
    decreases BoundArgs(args), args, 0
  {
    if args == [] then []
    else
      var r := [Inline(t, args[0])] + InlineArgs(t, args[1..]);
      assert r[1..] == InlineArgs(t, args[1..]);
      r
  }

  // ---------------------------------------------------------------------------------------
  // Success survives expansion

  /** If either succeeds, both do and with the same value. */
  ghost predicate Agree<T>(a: Outcome<T>, b: Outcome<T>) {
    a.Ok? || b.Ok? ==> a == b
  }

  /** The same outcome, except that a parameter without an argument is out of range inside its
      function and a nil result once expanded. */
  ghost predicate SameUpToStuck<T>(expanded: Outcome<T>, original: Outcome<T>) {
    || expanded == original
    || (original.Err? && original.error.ParameterOutOfRange? && expanded == Err(NullCapability))
  }

  /** The two relations in full. */
  lemma AgreementExactly<T>(a: Outcome<T>, b: Outcome<T>)
    ensures Agree(a, b) <==> (a.Ok? <==> b.Ok?) && (a.Ok? ==> a.value == b.value)
    ensures SameUpToStuck(a, b) <==>
            a == b || (a == Err(NullCapability) && exists k, n :: b == Err(ParameterOutOfRange(k, n)))
  {
    if b.Err? && b.error.ParameterOutOfRange? {
      assert b == Err(ParameterOutOfRange(b.error.index, b.error.count));
    }
  }

  lemma {:induction false} EvalArgsAt<N>(w: World<N>, t: Table<N>, args: seq<Expr<N>>, params: Option<seq<N>>, k: nat)
    requires WellFounded(t) && BoundArgs(args) <= |t| && k < |args|
    requires EvalArgs(w, t, args, params).Ok?
    ensures Bound(args[k]) <= |t|
    ensures Eval(w, t, args[k], params) == Ok(EvalArgs(w, t, args, params).value[k])
  {
    BoundArgsAt(args, k);
    if k > 0 {
      EvalArgsAt(w, t, args[1..], params, k - 1);
    }
  }

  /** Splicing arguments that evaluate to `vs` is evaluating the body on `vs`. */
  lemma {:induction false} SpliceSound<N>(w: World<N>, t: Table<N>, e: Expr<N>, actuals: seq<Expr<N>>,
                                          params: Option<seq<N>>)
    requires WellFounded(t) && Bound(e) <= |t| && BoundArgs(actuals) <= |t|
    requires EvalArgs(w, t, actuals, params).Ok?
    ensures SameUpToStuck(Eval(w, t, Splice(e, actuals), params),
                          Eval(w, t, e, Some(EvalArgs(w, t, actuals, params).value)))
    decreases e, 1
  {
    match e
    case Parameter(k) =>
      if k < |actuals| {
        EvalArgsAt(w, t, actuals, params, k);
      }
    case Call(f, args) => SpliceSoundArgs(w, t, args, actuals, params);
    case _ =>
  }

  lemma {:induction false} SpliceSoundArgs<N>(w: World<N>, t: Table<N>, args: seq<Expr<N>>, actuals: seq<Expr<N>>,
                                              params: Option<seq<N>>)
    requires WellFounded(t) && BoundArgs(args) <= |t| && BoundArgs(actuals) <= |t|
    requires EvalArgs(w, t, actuals, params).Ok?
    ensures SameUpToStuck(EvalArgs(w, t, SpliceArgs(args, actuals), params),
                          EvalArgs(w, t, args, Some(EvalArgs(w, t, actuals, params).value)))
    decreases args, 0
  {
    if args != [] {
      SpliceSound(w, t, args[0], actuals, params);
      SpliceSoundArgs(w, t, args[1..], actuals, params);
      assert SpliceArgs(args, actuals)[1..] == SpliceArgs(args[1..], actuals);
    }
  }

  /** Expansion preserves every value: what the server computes, the expanded expression
      computes too. */
  lemma {:induction false} InlinePreservesValues<N>(w: World<N>, t: Table<N>, e: Expr<N>, params: Option<seq<N>>)
    requires WellFounded(t) && Bound(e) <= |t|
    ensures Eval(w, t, e, params).Ok? ==> Eval(w, t, Inline(t, e), params) == Eval(w, t, e, params)
    decreases Bound(e), e, 1
  {
    match e
    case Call(f, args) =>
      InlineArgsPreserveValues(w, t, args, params);
      var vs := EvalArgs(w, t, args, params);
      if Expandable(t, f, |args|) && vs.Ok? {
        var body := t[f.id].body;
        InlinePreservesValues(w, t, body, Some(vs.value));
        SpliceSound(w, t, Inline(t, body), InlineArgs(t, args), params);
      }
    case _ =>
  }

  lemma {:induction false} InlineArgsPreserveValues<N>(w: World<N>, t: Table<N>, args: seq<Expr<N>>,
                                                       params: Option<seq<N>>)
    requires WellFounded(t) && BoundArgs(args) <= |t|
    ensures EvalArgs(w, t, args, params).Ok? ==>
              EvalArgs(w, t, InlineArgs(t, args), params) == EvalArgs(w, t, args, params)
    decreases BoundArgs(args), args, 0
  {
    if args != [] {
      InlinePreservesValues(w, t, args[0], params);
      InlineArgsPreserveValues(w, t, args[1..], params);
      assert InlineArgs(t, args)[1..] == InlineArgs(t, args[1..]);
    }
  }

  /** Every argument of every call that is expanded evaluates, bodies included. */
  ghost predicate ArgumentsSucceed<N>(w: World<N>, t: Table<N>, e: Expr<N>, params: Option<seq<N>>)
    requires WellFounded(t) && Bound(e) <= |t|
    decreases Bound(e), e, 1
  {
    e.Call? ==>
      && AllArgumentsSucceed(w, t, e.args, params)
      && (Expandable(t, e.f, |e.args|) ==>
            var vs := EvalArgs(w, t, InlineArgs(t, e.args), params);
            vs.Ok? && ArgumentsSucceed(w, t, t[e.f.id].body, Some(vs.value)))
  }

  ghost predicate AllArgumentsSucceed<N>(w: World<N>, t: Table<N>, args: seq<Expr<N>>, params: Option<seq<N>>)
    requires WellFounded(t) && BoundArgs(args) <= |t|
    decreases BoundArgs(args), args, 0
  {
    args != [] ==> ArgumentsSucceed(w, t, args[0], params) && AllArgumentsSucceed(w, t, args[1..], params)
  }

  lemma {:induction false} AllArgumentsSucceedAt<N>(w: World<N>, t: Table<N>, args: seq<Expr<N>>,
                                                    params: Option<seq<N>>)
    requires WellFounded(t) && BoundArgs(args) <= |t|
    ensures AllArgumentsSucceed(w, t, args, params) <==>
            forall i :: 0 <= i < |args| ==> Bound(args[i]) <= |t| && ArgumentsSucceed(w, t, args[i], params)
  {
    if args != [] {
      AllArgumentsSucceedAt(w, t, args[1..], params);
      assert forall i :: 0 < i < |args| ==> args[i] == args[1..][i - 1];
    }
  }

  /** Call by call; in particular it is so whenever the server computes a value. */
  lemma ArgumentsSucceedExactly<N>(w: World<N>, t: Table<N>, e: Expr<N>, params: Option<seq<N>>)
    requires WellFounded(t) && Bound(e) <= |t|
    ensures ArgumentsSucceed(w, t, e, params) <==>
            (e.Call? ==>
               && (forall i :: 0 <= i < |e.args| ==>
                     Bound(e.args[i]) <= |t| && ArgumentsSucceed(w, t, e.args[i], params))
               && (e.f.Cap? && t[e.f.id].Defined? && t[e.f.id].arity == |e.args| ==>
                     var vs := EvalArgs(w, t, InlineArgs(t, e.args), params);
                     vs.Ok? && ArgumentsSucceed(w, t, t[e.f.id].body, Some(vs.value))))
    ensures Eval(w, t, e, params).Ok? ==> ArgumentsSucceed(w, t, e, params)
  {
    if e.Call? {
      AllArgumentsSucceedAt(w, t, e.args, params);
    }
    ValueMeansArgumentsSucceed(w, t, e, params);
  }

  lemma {:induction false} ValueMeansArgumentsSucceed<N>(w: World<N>, t: Table<N>, e: Expr<N>, params: Option<seq<N>>)
    requires WellFounded(t) && Bound(e) <= |t|
    ensures Eval(w, t, e, params).Ok? ==> ArgumentsSucceed(w, t, e, params)
    decreases Bound(e), e, 1
  {
    if e.Call? && Eval(w, t, e, params).Ok? {
      ValuesMeanArgumentsSucceed(w, t, e.args, params);
      InlineArgsPreserveValues(w, t, e.args, params);
      if Expandable(t, e.f, |e.args|) {
        var vs := EvalArgs(w, t, e.args, params).value;
        assert Eval(w, t, e, params) == Apply(w, t, e.f.id, vs);
        ValueMeansArgumentsSucceed(w, t, t[e.f.id].body, Some(vs));
      }
    }
  }

  lemma {:induction false} ValuesMeanArgumentsSucceed<N>(w: World<N>, t: Table<N>, args: seq<Expr<N>>,
                                                         params: Option<seq<N>>)
    requires WellFounded(t) && BoundArgs(args) <= |t|
    ensures EvalArgs(w, t, args, params).Ok? ==> AllArgumentsSucceed(w, t, args, params)
    decreases BoundArgs(args), args, 0
  {
    if args != [] {
      ValueMeansArgumentsSucceed(w, t, args[0], params);
      ValuesMeanArgumentsSucceed(w, t, args[1..], params);
    }
  }

  /** Whatever the functions discard, expansion has the server's outcome when the expanded arguments
      evaluate: the same value, the same wait, and the same error up to a parameter out of range. */
  lemma {:induction false} InlineAgreesOnArguments<N>(w: World<N>, t: Table<N>, e: Expr<N>, params: Option<seq<N>>)
    requires WellFounded(t) && Bound(e) <= |t| && ArgumentsSucceed(w, t, e, params)
    ensures SameUpToStuck(Eval(w, t, Inline(t, e), params), Eval(w, t, e, params))
    decreases Bound(e), e, 1
  {
    match e
    case Call(f, args) =>
      InlineArgsAgreeOnArguments(w, t, args, params);
      if Expandable(t, f, |args|) {
        var body, actuals := t[f.id].body, InlineArgs(t, args);
        SpliceSound(w, t, Inline(t, body), actuals, params);
        InlineAgreesOnArguments(w, t, body, Some(EvalArgs(w, t, actuals, params).value));
      }
    case _ =>
  }

  lemma {:induction false} InlineArgsAgreeOnArguments<N>(w: World<N>, t: Table<N>, args: seq<Expr<N>>,
                                                         params: Option<seq<N>>)
    requires WellFounded(t) && BoundArgs(args) <= |t| && AllArgumentsSucceed(w, t, args, params)
    ensures SameUpToStuck(EvalArgs(w, t, InlineArgs(t, args), params), EvalArgs(w, t, args, params))
    decreases BoundArgs(args), args, 0
  {
    if args != [] {
      InlineAgreesOnArguments(w, t, args[0], params);
      InlineArgsAgreeOnArguments(w, t, args[1..], params);
      assert InlineArgs(t, args)[1..] == InlineArgs(t, args[1..]);
    }
  }

  // ---------------------------------------------------------------------------------------
  // Failure survives expansion exactly when no function discards a parameter

  predicate Uses<N>(e: Expr<N>, k: nat)
    decreases e, 1
  {
    match e
    case Parameter(j) => j == k
    case Call(_, args) => UsesArgs(args, k)
    case _ => false
  }

  predicate UsesArgs<N>(args: seq<Expr<N>>, k: nat)
    decreases args, 0
  {
    args != [] && (Uses(args[0], k) || UsesArgs(args[1..], k))
  }

  /** An expression is in scope exactly when the parameters it uses are below the count. */
  lemma {:induction false} InScopeByUses<N>(e: Expr<N>, n: nat)
    ensures Substitution.InScope(e, n) ==> forall k: nat :: Uses(e, k) ==> k < n
    ensures !Substitution.InScope(e, n) ==> exists k: nat :: Uses(e, k) && n <= k
  {
    if Substitution.InScope(e, n) {
      forall k: nat | Uses(e, k)
        ensures k < n
      {
        UsedInScope(e, n, k);
      }
    } else {
      var k := OutOfScope(e, n);
    }
  }

  lemma {:induction false} UsedInScope<N>(e: Expr<N>, n: nat, k: nat)
    requires Substitution.InScope(e, n) && Uses(e, k)
    ensures k < n
    decreases e
  {
    if e.Call? {
      UsedInScopeArgs(e.args, n, k);
    }
  }

  lemma {:induction false} UsedInScopeArgs<N>(args: seq<Expr<N>>, n: nat, k: nat)
    requires Substitution.InScopeArgs(args, n) && UsesArgs(args, k)
    ensures k < n
    decreases args
  {
    if Uses(args[0], k) {
      UsedInScope(args[0], n, k);
    } else {
      UsedInScopeArgs(args[1..], n, k);
    }
  }

  lemma {:induction false} OutOfScope<N>(e: Expr<N>, n: nat) returns (k: nat)
    requires !Substitution.InScope(e, n)
    ensures Uses(e, k) && n <= k
    decreases e
  {
    if e.Call? {
      k := OutOfScopeArgs(e.args, n);
    } else {
      k := e.k;
    }
  }

  lemma {:induction false} OutOfScopeArgs<N>(args: seq<Expr<N>>, n: nat) returns (k: nat)
    requires !Substitution.InScopeArgs(args, n)
    ensures UsesArgs(args, k) && n <= k
    decreases args
  {
    if Substitution.InScope(args[0], n) {
      k := OutOfScopeArgs(args[1..], n);
    } else {
      k := OutOfScope(args[0], n);
    }
  }

  /** Function `id` uses each of its parameters, once its body is expanded. */
  ghost predicate KeepsParameters<N>(t: Table<N>, id: nat)
    requires WellFounded(t) && id < |t| && t[id].Defined?
  {
    forall k: nat :: k < t[id].arity ==> Uses(Inline(t, t[id].body), k)
  }

  /** Function `id` succeeds on some argument list. */
  ghost predicate CanSucceed<N(!new)>(w: World<N>, t: Table<N>, id: nat)
    requires WellFounded(t) && id < |t| && t[id].Defined?
  {
    exists vs :: Apply(w, t, id, vs).Ok?
  }

  /** No function that can succeed at all discards a parameter. */
  ghost predicate NothingDiscarded<N(!new)>(w: World<N>, t: Table<N>)
    requires WellFounded(t)
  {
    forall id: nat :: id < |t| && t[id].Defined? && CanSucceed(w, t, id) ==> KeepsParameters(t, id)
  }

  /** A spliced expression that succeeds has evaluated every argument it uses. */
  lemma {:induction false} SpliceEvaluatesUsed<N>(w: World<N>, t: Table<N>, e: Expr<N>, actuals: seq<Expr<N>>,
                                                  params: Option<seq<N>>, k: nat)
    requires WellFounded(t) && Bound(e) <= |t| && BoundArgs(actuals) <= |t|
    requires k < |actuals| && Uses(e, k) && Eval(w, t, Splice(e, actuals), params).Ok?
    ensures Bound(actuals[k]) <= |t| && Eval(w, t, actuals[k], params).Ok?
    decreases e, 1
  {
    BoundArgsAt(actuals, k);
    match e
    case Call(f, args) => SpliceArgsEvaluateUsed(w, t, args, actuals, params, k);
    case _ =>
  }

  lemma {:induction false} SpliceArgsEvaluateUsed<N>(w: World<N>, t: Table<N>, args: seq<Expr<N>>,
                                                     actuals: seq<Expr<N>>, params: Option<seq<N>>, k: nat)
    requires WellFounded(t) && BoundArgs(args) <= |t| && BoundArgs(actuals) <= |t|
    requires k < |actuals| && UsesArgs(args, k) && EvalArgs(w, t, SpliceArgs(args, actuals), params).Ok?
    ensures Bound(actuals[k]) <= |t| && Eval(w, t, actuals[k], params).Ok?
    decreases args, 0
  {
    assert SpliceArgs(args, actuals)[1..] == SpliceArgs(args[1..], actuals);
    if Uses(args[0], k) {
      SpliceEvaluatesUsed(w, t, args[0], actuals, params, k);
    } else {
      SpliceArgsEvaluateUsed(w, t, args[1..], actuals, params, k);
    }
  }

  /** Splicing depends only on the arguments that are used. */
  lemma {:induction false} SpliceDependsOnUsed<N>(e: Expr<N>, a: seq<Expr<N>>, b: seq<Expr<N>>)
    requires |a| == |b| && forall k: nat :: k < |a| && Uses(e, k) ==> a[k] == b[k]
    ensures Splice(e, a) == Splice(e, b)
    decreases e, 1
  {
    match e
    case Call(f, args) => SpliceArgsDependOnUsed(args, a, b);
    case _ =>
  }

  lemma {:induction false} SpliceArgsDependOnUsed<N>(args: seq<Expr<N>>, a: seq<Expr<N>>, b: seq<Expr<N>>)
    requires |a| == |b| && forall k: nat :: k < |a| && UsesArgs(args, k) ==> a[k] == b[k]
    ensures SpliceArgs(args, a) == SpliceArgs(args, b)
    decreases args, 0
  {
    if args != [] {
      SpliceDependsOnUsed(args[0], a, b);
      SpliceArgsDependOnUsed(args[1..], a, b);
    }
  }

  /** Every argument that fails, replaced by a literal. */
  ghost function Patch<N>(w: World<N>, t: Table<N>, args: seq<Expr<N>>, params: Option<seq<N>>, n: N): (r: seq<Expr<N>>)
    requires WellFounded(t) && BoundArgs(args) <= |t|
    ensures |r| == |args| && BoundArgs(r) <= |t| && EvalArgs(w, t, r, params).Ok?
    ensures forall k :: 0 <= k < |args| ==>
              Bound(args[k]) <= |t| && (r[k] == args[k] <== Eval(w, t, args[k], params).Ok?)
  {
    if args == [] then []
    else
      var first := if Eval(w, t, args[0], params).Ok? then args[0] else Literal(n);
      var r := [first] + Patch(w, t, args[1..], params, n);
      assert r[1..] == Patch(w, t, args[1..], params, n);
      assert forall k :: 0 < k < |args| ==> args[k] == args[1..][k - 1] && r[k] == r[1..][k - 1];
      r
  }

  /** If no function that can succeed discards a parameter, expansion succeeds and fails together
      with the original. */
  lemma {:induction false} InlineAgrees<N(!new)>(w: World<N>, t: Table<N>, e: Expr<N>, params: Option<seq<N>>)
    requires WellFounded(t) && Bound(e) <= |t| && NothingDiscarded(w, t)
    ensures Agree(Eval(w, t, Inline(t, e), params), Eval(w, t, e, params))
    decreases Bound(e), e, 1
  {
    InlinePreservesValues(w, t, e, params);
    match e
    case Call(f, args) =>
      InlineArgsAgree(w, t, args, params);
      if Expandable(t, f, |args|) && Eval(w, t, Inline(t, e), params).Ok? {
        var body, actuals := t[f.id].body, InlineArgs(t, args);
        var patched := Patch(w, t, actuals, params, Eval(w, t, Inline(t, e), params).value);
        forall k: nat | k < |actuals| && Uses(Inline(t, body), k)
          ensures patched[k] == actuals[k]
        {
          SpliceEvaluatesUsed(w, t, Inline(t, body), actuals, params, k);
        }
        SpliceDependsOnUsed(Inline(t, body), actuals, patched);
        var vs := EvalArgs(w, t, patched, params).value;
        SpliceSound(w, t, Inline(t, body), patched, params);
        InlineAgrees(w, t, body, Some(vs));
        assert Apply(w, t, f.id, vs).Ok?;
        assert CanSucceed(w, t, f.id) && KeepsParameters(t, f.id);
        assert actuals == patched;
      }
    case _ =>
  }

  lemma {:induction false} InlineArgsAgree<N(!new)>(w: World<N>, t: Table<N>, args: seq<Expr<N>>,
                                                    params: Option<seq<N>>)
    requires WellFounded(t) && BoundArgs(args) <= |t| && NothingDiscarded(w, t)
    ensures Agree(EvalArgs(w, t, InlineArgs(t, args), params), EvalArgs(w, t, args, params))
    decreases BoundArgs(args), args, 0
  {
    if args != [] {
      InlineAgrees(w, t, args[0], params);
      InlineArgsAgree(w, t, args[1..], params);
      assert InlineArgs(t, args)[1..] == InlineArgs(t, args[1..]);
    }
  }

  // The other half: a discarded parameter is always observable.

  lemma {:induction false} BoundArgsUpdate<N>(args: seq<Expr<N>>, k: nat, x: Expr<N>)
    requires k < |args|
    ensures BoundArgs(args[k := x]) <= Max(BoundArgs(args), Bound(x))
  {
    if k > 0 {
      BoundArgsUpdate(args[1..], k - 1, x);
      assert args[k := x][1..] == args[1..][k - 1 := x];
    } else {
      assert args[k := x][1..] == args[1..];
    }
  }

  /** The expansion of a list without defined calls is the list itself. */
  lemma {:induction false} InlineAtoms<N>(t: Table<N>, args: seq<Expr<N>>)
    requires WellFounded(t) && BoundArgs(args) <= |t|
    requires forall i :: 0 <= i < |args| ==> !args[i].Call?
    ensures InlineArgs(t, args) == args
  {
    if args != [] {
      InlineAtoms(t, args[1..]);
      assert args == [args[0]] + args[1..];
    }
  }

  /** A call of `id` on literals, with a failing expression for parameter `k`. */
  function Probe<N>(id: nat, vs: seq<N>, k: nat): (r: Expr<N>)
    requires k < |vs|
    ensures Bound(r) <= id + 1
  {
    BoundArgsUpdate(Literals(vs), k, Stuck());
    Call(Cap(id), Literals(vs)[k := Stuck()])
  }

  /** If a function that can succeed discards a parameter, then a call with a failing argument in
      that place fails at the server and succeeds once expanded. */
  lemma DiscardIsObservable<N>(w: World<N>, t: Table<N>, id: nat, vs: seq<N>, k: nat, params: Option<seq<N>>)
    requires WellFounded(t) && id < |t| && t[id].Defined? && k < |vs|
    requires Apply(w, t, id, vs).Ok? && !Uses(Inline(t, t[id].body), k)
    ensures !Eval(w, t, Probe(id, vs, k), params).Ok?
    ensures Eval(w, t, Inline(t, Probe(id, vs, k)), params) == Apply(w, t, id, vs)
  {
    ProbeFails(w, t, id, vs, k, params);
    var body, lits := t[id].body, Literals(vs);
    var actuals := lits[k := Stuck()];
    ProbeInlined(t, id, vs, k);
    SpliceDependsOnUsed(Inline(t, body), lits, actuals);
    EvalLiterals(w, t, vs, params);
    InlinePreservesValues(w, t, body, Some(vs));
    SpliceSound(w, t, Inline(t, body), lits, params);
  }

  lemma ProbeFails<N>(w: World<N>, t: Table<N>, id: nat, vs: seq<N>, k: nat, params: Option<seq<N>>)
    requires WellFounded(t) && id < |t| && k < |vs|
    ensures !Eval(w, t, Probe(id, vs, k), params).Ok?
  {
    var actuals := Literals(vs)[k := Stuck()];
    BoundArgsUpdate(Literals(vs), k, Stuck());
    if EvalArgs(w, t, actuals, params).Ok? {
      EvalArgsAt(w, t, actuals, params, k);
    }
  }

  lemma ProbeInlined<N>(t: Table<N>, id: nat, vs: seq<N>, k: nat)
    requires WellFounded(t) && id < |t| && t[id].Defined? && t[id].arity == |vs| && k < |vs|
    ensures Inline(t, Probe(id, vs, k)) == Splice(Inline(t, t[id].body), Literals(vs)[k := Stuck()])
  {
    var actuals := Literals(vs)[k := Stuck()];
    BoundArgsUpdate(Literals(vs), k, Stuck());
    InlineAtoms(t, actuals);
  }

  /** A concrete case: a constant function called on a nil result. */
  lemma DiscardExample<N>(w: World<N>, n: N)
    ensures var t: Table<N> := [Defined(1, Literal(n))];
            var e: Expr<N> := Call(Cap(0), [PreviousResult(Null)]);
            && Eval(w, t, e, None) == Err(NullCapability)
            && Eval(w, t, Inline(t, e), None) == Ok(n)
  {
  }

  /** The exact condition: expansion agrees with the server on every expression and parameter list
      if and only if no function that can succeed discards a parameter. */
  lemma InliningExact<N(!new)>(w: World<N>, t: Table<N>)
    requires WellFounded(t)
    ensures NothingDiscarded(w, t) <==>
            (forall e, params :: Bound(e) <= |t| ==>
               Agree(Eval(w, t, Inline(t, e), params), Eval(w, t, e, params)))
  {
    if NothingDiscarded(w, t) {
      forall e, params | Bound(e) <= |t|
        ensures Agree(Eval(w, t, Inline(t, e), params), Eval(w, t, e, params))
      {
        InlineAgrees(w, t, e, params);
      }
    } else {
      var id: nat :| id < |t| && t[id].Defined? && CanSucceed(w, t, id) && !KeepsParameters(t, id);
      var k: nat :| k < t[id].arity && !Uses(Inline(t, t[id].body), k);
      var vs :| Apply(w, t, id, vs).Ok?;
      DiscardIsObservable(w, t, id, vs, k, None);
    }
  }

  /** The same condition read off the table: no function whose body is accepted discards a
      parameter. */
  ghost predicate NothingDiscardedByShape<N>(t: Table<N>)
    requires WellFounded(t)
  {
    forall id: nat :: id < |t| && t[id].Defined? && AcceptedFunction(t, id) ==> KeepsParameters(t, id)
  }

  predicate AcceptedFunction<N>(t: Table<N>, id: nat)
    requires WellFounded(t) && id < |t| && t[id].Defined?
  {
    t[id].arity >= 0 && StaticCheck.AcceptsCount(t, id, t[id].arity)
  }

  lemma CanSucceedByShape<N(!new)>(w: World<N>, t: Table<N>, id: nat, n: N)
    requires WellFounded(t) && StaticCheck.CallbacksAnswer(w, t) && id < |t| && t[id].Defined?
    ensures CanSucceed(w, t, id) <==> AcceptedFunction(t, id)
  {
    if CanSucceed(w, t, id) {
      var vs :| Apply(w, t, id, vs).Ok?;
      StaticCheck.ExactSuccessCall(w, t, id, vs);
    }
    if AcceptedFunction(t, id) {
      var vs := seq(t[id].arity, _ => n);
      StaticCheck.ExactSuccessCall(w, t, id, vs);
      assert Apply(w, t, id, vs).Ok?;
    }
  }

  /** The exact condition by shape alone, as long as the client's functions answer (and there is a
      number `n` to call functions with). */
  lemma InliningExactByShape<N(!new)>(w: World<N>, t: Table<N>, n: N)
    requires WellFounded(t) && StaticCheck.CallbacksAnswer(w, t)
    ensures NothingDiscardedByShape(t) <==>
            (forall e, params :: Bound(e) <= |t| ==>
               Agree(Eval(w, t, Inline(t, e), params), Eval(w, t, e, params)))
  {
    forall id: nat | id < |t| && t[id].Defined?
      ensures CanSucceed(w, t, id) <==> AcceptedFunction(t, id)
    {
      CanSucceedByShape(w, t, id, n);
    }
    InliningExact(w, t);
  }

  // ---------------------------------------------------------------------------------------
  // Expansion reaches operators

  /** No defined function is called. */
  predicate Primitive<N>(t: Table<N>, e: Expr<N>)
    requires Bound(e) <= |t|
    decreases e, 1
  {
    match e
    case Call(f, args) => (f.Cap? ==> !t[f.id].Defined?) && PrimitiveArgs(t, args)
    case _ => true
  }

  predicate PrimitiveArgs<N>(t: Table<N>, args: seq<Expr<N>>)
    requires BoundArgs(args) <= |t|
    decreases args, 0
  {
    args != [] ==> Primitive(t, args[0]) && PrimitiveArgs(t, args[1..])
  }

  lemma {:induction false} PrimitiveAt<N>(t: Table<N>, args: seq<Expr<N>>, k: nat)
    requires BoundArgs(args) <= |t| && PrimitiveArgs(t, args) && k < |args|
    ensures Bound(args[k]) <= |t| && Primitive(t, args[k])
  {
    BoundArgsAt(args, k);
    if k > 0 {
      PrimitiveAt(t, args[1..], k - 1);
    }
  }

  lemma {:induction false} SplicePrimitive<N>(t: Table<N>, e: Expr<N>, actuals: seq<Expr<N>>)
    requires Bound(e) <= |t| && BoundArgs(actuals) <= |t| && Primitive(t, e) && PrimitiveArgs(t, actuals)
    ensures Primitive(t, Splice(e, actuals))
    decreases e, 1
  {
    match e
    case Parameter(k) =>
      if k < |actuals| {
        PrimitiveAt(t, actuals, k);
      }
    case Call(f, args) => SpliceArgsPrimitive(t, args, actuals);
    case _ =>
  }

  lemma {:induction false} SpliceArgsPrimitive<N>(t: Table<N>, args: seq<Expr<N>>, actuals: seq<Expr<N>>)
    requires BoundArgs(args) <= |t| && BoundArgs(actuals) <= |t| && PrimitiveArgs(t, args) && PrimitiveArgs(t, actuals)
    ensures PrimitiveArgs(t, SpliceArgs(args, actuals))
    decreases args, 0
  {
    if args != [] {
      SplicePrimitive(t, args[0], actuals);
      SpliceArgsPrimitive(t, args[1..], actuals);
      assert SpliceArgs(args, actuals)[1..] == SpliceArgs(args[1..], actuals);
    }
  }

  /** An expression whose calls all have the right number of arguments expands to operators and
      client functions only. */
  lemma {:induction false} InlineReachesPrimitives<N>(t: Table<N>, e: Expr<N>, arity: Option<nat>)
    requires WellFounded(t) && Bound(e) <= |t| && StaticCheck.Accepts(t, e, arity)
    ensures Primitive(t, Inline(t, e))
    decreases Bound(e), e, 1
  {
    match e
    case Call(f, args) =>
      InlineArgsReachPrimitives(t, args, arity);
      if Expandable(t, f, |args|) {
        InlineReachesPrimitives(t, t[f.id].body, Some(|args|));
        SplicePrimitive(t, Inline(t, t[f.id].body), InlineArgs(t, args));
      }
    case _ =>
  }

  lemma {:induction false} InlineArgsReachPrimitives<N>(t: Table<N>, args: seq<Expr<N>>, arity: Option<nat>)
    requires WellFounded(t) && BoundArgs(args) <= |t| && StaticCheck.AcceptsArgs(t, args, arity)
    ensures PrimitiveArgs(t, InlineArgs(t, args))
    decreases BoundArgs(args), args, 0
  {
    if args != [] {
      InlineReachesPrimitives(t, args[0], arity);
      InlineArgsReachPrimitives(t, args[1..], arity);
      assert InlineArgs(t, args)[1..] == InlineArgs(t, args[1..]);
    }
  }
}
