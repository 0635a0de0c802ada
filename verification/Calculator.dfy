/** The language the calculator server evaluates (go/main.go, schema/calculator.capnp).

    Capabilities live in an append-only table and are named by their index. Numbers are an
    arbitrary type `N`: the four operators and the client's callbacks come from a `World`,
    so nothing proved here depends on how floating point rounds.
 */
module Calculator {

  import opened Wrappers

  datatype Operator = Add | Subtract | Multiply | Divide

  /** Why an evaluation fails. */
  datatype Error =
    | NullCapability                                   // capnp.ErrNullClient
    | WrongInterface                                   // method not implemented by the capability
    | OutsideFunction(index: nat)                      // go/main.go:110
    | ParameterOutOfRange(index: nat, count: nat)      // go/main.go:119
    | WrongArity(expected: int, actual: nat)           // go/main.go:82, 190
    | UnknownExpression(tag: nat)                      // go/main.go:153
    | OperatorNotFound(code: nat)                      // go/main.go:209
    | CallbackRefused(reason: string)                  // the client's function failed

  /** `Blocked` says that the evaluation is waiting for a capability that is still a promise. */
  datatype Outcome<+T> = Ok(value: T) | Err(error: Error) | Blocked {
    predicate IsFailure() {
      !Ok?
    }

    function PropagateFailure<U>(): Outcome<U>
      requires IsFailure()
    {
      if Err? then Err(error) else Blocked
    }

    function Extract(): T
      requires !IsFailure()
    {
      value
    }
  }

  datatype Reply<+T> = Answer(value: T) | Refusal(reason: string)

  /** A reference to a capability as it stands in a message: nil, or an entry of the table. */
  datatype CapRef = Null | Cap(id: nat)

  datatype Expr<+N> =
    | Literal(n: N)
    | PreviousResult(v: CapRef)
    | Parameter(k: nat)
    | Call(f: CapRef, args: seq<Expr<N>>)
    | Unknown(tag: nat)

  datatype Entry<+N> =
    | Base(op: Operator)
    | Defined(arity: int, body: Expr<N>)
    | Value(value: N)
    | Callback
    | Broken(error: Error)
    | Pending

  type Table<+N> = seq<Entry<N>>

  /** The operators, and the client's own functions as oracles from argument lists to replies. */
  datatype World<!N> = World(op: (Operator, N, N) -> N, callback: (nat, seq<N>) -> Reply<N>)

  function Max(a: nat, b: nat): nat {
    if a < b then b else a
  }

  function RefBound(r: CapRef): nat {
    match r
    case Null => 0
    case Cap(id) => id + 1
  }

  /** One more than the largest table index an expression names. */
  function Bound<N>(e: Expr<N>): nat {
    match e
    case Literal(_) => 0
    case PreviousResult(v) => RefBound(v)
    case Parameter(_) => 0
    case Call(f, args) => Max(RefBound(f), BoundArgs(args))
    case Unknown(_) => 0
  }

  function BoundArgs<N>(args: seq<Expr<N>>): nat {
    if args == [] then 0 else Max(Bound(args[0]), BoundArgs(args[1..]))
  }

  lemma {:induction false} BoundArgsAt<N>(args: seq<Expr<N>>, k: nat)
    requires k < |args|
    ensures Bound(args[k]) <= BoundArgs(args)
  {
    if k > 0 {
      BoundArgsAt(args[1..], k - 1);
    }
  }

  /** `n` entries are enough for an expression exactly if every capability it names is one of
      them. */
  lemma BoundExactly<N>(e: Expr<N>, n: nat)
    ensures Bound(e) <= n <==>
            match e
            case PreviousResult(v) => v.Cap? ==> v.id < n
            case Call(f, args) =>
              (f.Cap? ==> f.id < n) && forall k :: 0 <= k < |args| ==> Bound(args[k]) <= n
            case _ => true
  {
    if e.Call? {
      BoundArgsExactly(e.args, n);
    }
  }

  lemma {:induction false} BoundArgsExactly<N>(args: seq<Expr<N>>, n: nat)
    ensures BoundArgs(args) <= n <==> forall k :: 0 <= k < |args| ==> Bound(args[k]) <= n
  {
    if args != [] {
      BoundArgsExactly(args[1..], n);
      assert forall k :: 0 < k < |args| ==> args[k] == args[1..][k - 1];
    }
  }

  /** A stored body names only capabilities older than itself. */
  predicate WellFounded<N>(t: Table<N>) {
    forall i :: 0 <= i < |t| && t[i].Defined? ==> Bound(t[i].body) <= i
  }

  predicate Callable<N>(entry: Entry<N>) {
    entry.Base? || entry.Defined? || entry.Callback?
  }

  /** `Value.read` on a capability (go/main.go:58-61, 100-106). */
  function Read<N>(t: Table<N>, v: CapRef): Outcome<N>
    requires RefBound(v) <= |t|
  {
    match v
    case Null => Err(NullCapability)
    case Cap(id) =>
      match t[id]
      case Value(n) => Ok(n)
      case Broken(error) => Err(error)
      case Pending => Blocked
      case _ => Err(WrongInterface)
  }

  /** The function a call node names; a nil, broken or foreign capability answers at once,
      before any argument is evaluated. */
  function Callee<N>(t: Table<N>, f: CapRef): (r: Outcome<nat>)
    requires RefBound(f) <= |t|
    ensures r.Ok? <==> f.Cap? && Callable(t[f.id])
    ensures r.Ok? ==> r.value == f.id
  {
    match f
    case Null => Err(NullCapability)
    case Cap(id) =>
      match t[id]
      case Value(_) => Err(WrongInterface)
      case Broken(error) => Err(error)
      case Pending => Blocked
      case _ => Ok(id)
  }

  /** calculatorServer.evaluate (go/main.go:96-155). */
  function Eval<N>(w: World<N>, t: Table<N>, e: Expr<N>, params: Option<seq<N>>): Outcome<N>
    requires WellFounded(t) && Bound(e) <= |t|
    decreases 2 * Bound(e), e, 1
  {
    match e
    case Literal(n) => Ok(n)
    case PreviousResult(v) => Read(t, v)
    case Parameter(k) =>
      if params.None? then Err(OutsideFunction(k))
      else if k >= |params.value| then Err(ParameterOutOfRange(k, |params.value|))
      else Ok(params.value[k])
    case Call(f, args) =>
      var id :- Callee(t, f);
      var vs :- EvalArgs(w, t, args, params);
      Apply(w, t, id, vs)
    case Unknown(tag) => Err(UnknownExpression(tag))
  }

  /** The arguments, left to right, stopping at the first that fails (go/main.go:136-143). */
  function EvalArgs<N>(w: World<N>, t: Table<N>, args: seq<Expr<N>>, params: Option<seq<N>>)
    : (r: Outcome<seq<N>>)
    requires WellFounded(t) && BoundArgs(args) <= |t|
    ensures r.Ok? ==> |r.value| == |args|
    decreases 2 * BoundArgs(args), args, 0
  {
    if args == [] then Ok([])
    else
      var v :- Eval(w, t, args[0], params);
      var vs :- EvalArgs(w, t, args[1..], params);
      Ok([v] + vs)
  }

  /** `Function.call` on an operator, a defined function or a client callback
      (go/main.go:73-93, 182-204). */
  function Apply<N>(w: World<N>, t: Table<N>, id: nat, vs: seq<N>): Outcome<N>
    requires WellFounded(t) && id < |t| && Callable(t[id])
    decreases 2 * id + 1
  {
    match t[id]
    case Base(op) =>
      if |vs| != 2 then Err(WrongArity(2, |vs|)) else Ok(w.op(op, vs[0], vs[1]))
    case Defined(arity, body) =>
      if |vs| != arity then Err(WrongArity(arity, |vs|)) else Eval(w, t, body, Some(vs))
    case Callback =>
      match w.callback(id, vs)
      case Answer(n) => Ok(n)
      case Refusal(reason) => Err(CallbackRefused(reason))
  }

  // ---------------------------------------------------------------------------------------
  // Argument lists

  /** All the values in their places, or the first failure from the left. */
  lemma {:induction false} EvalArgsExactly<N>(w: World<N>, t: Table<N>, args: seq<Expr<N>>, params: Option<seq<N>>)
    requires WellFounded(t) && BoundArgs(args) <= |t|
    ensures forall k :: 0 <= k < |args| ==> Bound(args[k]) <= |t|
    ensures var r := EvalArgs(w, t, args, params);
            if r.Ok? then forall k :: 0 <= k < |args| ==> Eval(w, t, args[k], params) == Ok(r.value[k])
            else exists k ::
              && 0 <= k < |args| && !Eval(w, t, args[k], params).Ok?
              && r == Eval(w, t, args[k], params).PropagateFailure()
              && forall j :: 0 <= j < k ==> Eval(w, t, args[j], params).Ok?
  {
    BoundArgsExactly(args, |t|);
    if args != [] {
      var rest := args[1..];
      assert forall k :: 0 < k < |args| ==> args[k] == rest[k - 1];
      EvalArgsExactly(w, t, rest, params);
      var r, first := EvalArgs(w, t, rest, params), Eval(w, t, args[0], params);
      if first.Ok? && !r.Ok? {
        var k :| && 0 <= k < |rest| && !Eval(w, t, rest[k], params).Ok?
                 && r == Eval(w, t, rest[k], params).PropagateFailure()
                 && forall j :: 0 <= j < k ==> Eval(w, t, rest[j], params).Ok?;
        assert args[k + 1] == rest[k];
      }
    }
  }

  function Literals<N>(vs: seq<N>): (r: seq<Expr<N>>)
    ensures |r| == |vs| && BoundArgs(r) == 0
    ensures forall i :: 0 <= i < |vs| ==> r[i] == Literal(vs[i])
  {
    if vs == [] then []
    else
      var r := [Literal(vs[0])] + Literals(vs[1..]);
      assert r[1..] == Literals(vs[1..]);
      r
  }

  lemma {:induction false} EvalLiterals<N>(w: World<N>, t: Table<N>, vs: seq<N>, params: Option<seq<N>>)
    requires WellFounded(t)
    ensures EvalArgs(w, t, Literals(vs), params) == Ok(vs)
  {
    if vs != [] {
      EvalLiterals(w, t, vs[1..], params);
      assert Literals(vs)[1..] == Literals(vs[1..]);
      assert vs == [vs[0]] + vs[1..];
    }
  }

  // ---------------------------------------------------------------------------------------
  // What a capability answers, kind by kind

  /** A call without a function fails as the nil client does, whatever its arguments
      (go/calculator/calculator.capnp.go:559-562). */
  lemma NilFunction<N>(w: World<N>, t: Table<N>, args: seq<Expr<N>>, params: Option<seq<N>>)
    requires WellFounded(t) && BoundArgs(args) <= |t|
    ensures Eval(w, t, Call(Null, args), params) == Err(NullCapability)
  {
  }

  /** A call of something that is no function has that capability's own outcome. */
  lemma CallOfNoFunction<N>(w: World<N>, t: Table<N>, id: nat, args: seq<Expr<N>>, params: Option<seq<N>>)
    requires WellFounded(t) && id < |t| && BoundArgs(args) <= |t|
    ensures var o := Eval(w, t, Call(Cap(id), args), params);
            && (t[id].Value? ==> o == Err(WrongInterface))
            && (t[id].Broken? ==> o == Err(t[id].error))
            && (t[id].Pending? ==> o == Blocked)
  {
  }

  /** Reading a capability (go/calculator/calculator.capnp.go:376-379, go/main.go:58-61). */
  lemma ReadOfAnything<N>(w: World<N>, t: Table<N>, id: nat, params: Option<seq<N>>)
    requires WellFounded(t) && id < |t|
    ensures Eval(w, t, PreviousResult(Null), params) == Err(NullCapability)
    ensures var o := Eval(w, t, PreviousResult(Cap(id)), params);
            && (t[id].Value? ==> o == Ok(t[id].value))
            && (Callable(t[id]) ==> o == Err(WrongInterface))
            && (t[id].Broken? ==> o == Err(t[id].error))
            && (t[id].Pending? ==> o == Blocked)
  {
  }

  /** Exactly the operators, the defined functions and the client's functions can be called. */
  lemma CallableExactly<N>(entry: Entry<N>)
    ensures Callable(entry) <==> !entry.Value? && !entry.Broken? && !entry.Pending?
  {
  }
}
