/** The client's programs (ts/src/client.ts), run through the server. */
module Client {
  import opened Wrappers
  import opened Calculator
  import opened Session
  import opened Server

  // ---------------------------------------------------------------------------------------
  // f(x, y) = x * 100 + y and g(x) = f(x, x + 1) * 2 (ts/src/client.ts:163-221)

  /** Addition and multiplication are exact. */
  ghost predicate ExactArithmetic(w: World<real>) {
    forall a, b :: w.op(Add, a, b) == a + b && w.op(Multiply, a, b) == a * b
  }

  /** Exact operators satisfy it, whatever the others and the callbacks do. */
  lemma ExactArithmeticExample(callback: (nat, seq<real>) -> Reply<real>, other: real)
    ensures ExactArithmetic(World((op: Operator, a: real, b: real) =>
                                    if op.Add? then a + b else if op.Multiply? then a * b else other, callback))
  {
  }

  function FBody(add: nat, multiply: nat): Expr<real> {
    Call(Cap(add), [Call(Cap(multiply), [Parameter(0), Literal(100.0)]), Parameter(1)])
  }

  function GBody(add: nat, multiply: nat, f: nat): Expr<real> {
    Call(Cap(multiply),
         [Call(Cap(f), [Parameter(0), Call(Cap(add), [Parameter(0), Literal(1.0)])]), Literal(2.0)])
  }

  /** Evaluating a call of a two-argument function. */
  lemma {:induction false} EvalCall2<N>(w: World<N>, t: Table<N>, id: nat, a: Expr<N>, b: Expr<N>,
                                        params: Option<seq<N>>)
    requires WellFounded(t) && id < |t| && Callable(t[id]) && Bound(a) <= |t| && Bound(b) <= |t|
    ensures Bound(Call(Cap(id), [a, b])) <= |t|
    ensures Eval(w, t, a, params).Ok? && Eval(w, t, b, params).Ok? ==>
              Eval(w, t, Call(Cap(id), [a, b]), params) ==
              Apply(w, t, id, [Eval(w, t, a, params).value, Eval(w, t, b, params).value])
  {
    var args := [a, b];
    assert args[1..] == [b] && [b][1..] == [];
    var va, vb := Eval(w, t, a, params), Eval(w, t, b, params);
    assert BoundArgs([b]) == Bound(b);
    assert EvalArgs(w, t, [], params) == Ok([]);
    if va.Ok? && vb.Ok? {
      assert EvalArgs(w, t, [b], params) == Ok([vb.value] + []);
      assert [va.value] + ([vb.value] + []) == [va.value, vb.value];
    }
  }

  lemma FComputes(w: World<real>, t: Table<real>, add: nat, multiply: nat, f: nat, x: real, y: real)
    requires WellFounded(t) && ExactArithmetic(w)
    requires add < f < |t| && multiply < f && t[add] == Base(Add) && t[multiply] == Base(Multiply)
    requires t[f] == Defined(2, FBody(add, multiply))
    ensures Apply(w, t, f, [x, y]) == Ok(100.0 * x + y)
  {
    var params := Some([x, y]);
    EvalCall2(w, t, multiply, Parameter(0), Literal(100.0), params);
    EvalCall2(w, t, add, Call(Cap(multiply), [Parameter(0), Literal(100.0)]), Parameter(1), params);
  }

  lemma GComputes(w: World<real>, t: Table<real>, add: nat, multiply: nat, f: nat, g: nat, x: real)
    requires WellFounded(t) && ExactArithmetic(w)
    requires add < f < g < |t| && multiply < f && t[add] == Base(Add) && t[multiply] == Base(Multiply)
    requires t[f] == Defined(2, FBody(add, multiply)) && t[g] == Defined(1, GBody(add, multiply, f))
    ensures Apply(w, t, g, [x]) == Ok(202.0 * x + 2.0)
  {
    var params := Some([x]);
    var next: Expr<real> := Call(Cap(add), [Parameter(0), Literal(1.0)]);
    EvalCall2(w, t, add, Parameter(0), Literal(1.0), params);
    EvalCall2(w, t, f, Parameter(0), next, params);
    FComputes(w, t, add, multiply, f, x, x + 1.0);
    EvalCall2(w, t, multiply, Call(Cap(f), [Parameter(0), next]), Literal(2.0), params);
  }

  lemma FunctionsCompute(w: World<real>, t: Table<real>, add: nat, multiply: nat, f: nat, g: nat)
    requires WellFounded(t) && ExactArithmetic(w)
    requires add < f < g < |t| && multiply < f && t[add] == Base(Add) && t[multiply] == Base(Multiply)
    requires t[f] == Defined(2, FBody(add, multiply)) && t[g] == Defined(1, GBody(add, multiply, f))
    ensures forall x: real, y: real :: Apply(w, t, f, [x, y]) == Ok(100.0 * x + y)
    ensures forall x: real :: Apply(w, t, g, [x]) == Ok(202.0 * x + 2.0)
  {
    forall x: real, y: real
      ensures Apply(w, t, f, [x, y]) == Ok(100.0 * x + y)
    {
      FComputes(w, t, add, multiply, f, x, y);
    }
    forall x: real
      ensures Apply(w, t, g, [x]) == Ok(202.0 * x + 2.0)
    {
      GComputes(w, t, add, multiply, f, g, x);
    }
  }

  method GetAddAndMultiply(server: CalculatorServer<real>) returns (add: nat, multiply: nat)
    requires server.Valid()
    modifies server
    ensures server.Valid() && old(server.table) <= server.table
    ensures add < multiply < |server.table|
    ensures server.table[add] == Base(Add) && server.table[multiply] == Base(Multiply)
  {
    add := server.GetOperator(0);
    assert server.table[add] == Base(Add);
    multiply := server.GetOperator(2);
  }

  method DefineF(server: CalculatorServer<real>, add: nat, multiply: nat) returns (f: nat)
    requires server.Valid() && add < |server.table| && multiply < |server.table|
    modifies server
    ensures server.Valid() && old(server.table) <= server.table
    ensures f == |old(server.table)| < |server.table| && server.table[f] == Defined(2, FBody(add, multiply))
  {
    BodiesBound(add, multiply, |server.table|);
    f := server.DefFunction(2, FBody(add, multiply));
  }

  method DefineG(server: CalculatorServer<real>, add: nat, multiply: nat, f: nat) returns (g: nat)
    requires server.Valid() && add < f < |server.table| && multiply < f
    modifies server
    ensures server.Valid() && old(server.table) <= server.table
    ensures g == |old(server.table)| < |server.table| && server.table[g] == Defined(1, GBody(add, multiply, f))
  {
    BodiesBound(add, multiply, f);
    g := server.DefFunction(1, GBody(add, multiply, f));
  }

  /** Defining the two functions at any point of any session makes them compute what the client's
      comment says, on all arguments. */
  method DefineFunctions(server: CalculatorServer<real>) returns (f: nat, g: nat)
    requires server.Valid() && ExactArithmetic(server.w)
    modifies server
    ensures server.Valid() && old(server.table) <= server.table
    ensures f < |server.table| && g < |server.table| && server.table[f].Defined? && server.table[g].Defined?
    ensures forall x: real, y: real :: Apply(server.w, server.table, f, [x, y]) == Ok(100.0 * x + y)
    ensures forall x: real :: Apply(server.w, server.table, g, [x]) == Ok(202.0 * x + 2.0)
  {
    var add, multiply := GetAddAndMultiply(server);
    f := DefineF(server, add, multiply);
    g := DefineG(server, add, multiply, f);
    FunctionsCompute(server.w, server.table, add, multiply, f, g);
  }

  lemma {:induction false} Bound2<N>(id: nat, a: Expr<N>, b: Expr<N>)
    ensures Bound(Call(Cap(id), [a, b])) == Max(id + 1, Max(Bound(a), Bound(b)))
  {
    assert [a, b][1..] == [b] && [b][1..] == [];
    assert BoundArgs([b]) == Bound(b);
  }

  lemma BodiesBound(add: nat, multiply: nat, f: nat)
    requires add < f && multiply < f
    ensures Bound(FBody(add, multiply)) <= f && Bound(GBody(add, multiply, f)) <= f + 1
  {
    var product: Expr<real> := Call(Cap(multiply), [Parameter(0), Literal(100.0)]);
    var next: Expr<real> := Call(Cap(add), [Parameter(0), Literal(1.0)]);
    Bound2<real>(multiply, Parameter(0), Literal(100.0));
    Bound2<real>(add, product, Parameter(1));
    Bound2<real>(add, Parameter(0), Literal(1.0));
    Bound2<real>(f, Parameter(0), next);
    Bound2<real>(multiply, Call(Cap(f), [Parameter(0), next]), Literal(2.0));
  }

  // ---------------------------------------------------------------------------------------
  // The accumulation loop of stressTest (ts/src/client.ts:313-336)

  /** Float64 addition on whole numbers: exact as long as the sum is at most 2^53, unspecified
      beyond. */
  ghost predicate ExactSums(w: World<int>) {
    forall a, b :: 0 <= a && 0 <= b && a + b <= MAX_EXACT ==> w.op(Add, a, b) == a + b
  }

  /** Two instances: true addition, and an addition that gets stuck at 2^53, as float64 addition of
      1 does. */
  lemma ExactSumsExample(callback: (nat, seq<int>) -> Reply<int>)
    ensures ExactSums(World((op: Operator, a: int, b: int) => a + b, callback))
    ensures ExactSums(World((op: Operator, a: int, b: int) => if a + b > MAX_EXACT then MAX_EXACT else a + b,
                            callback))
  {
  }

  /** The sum of the numbers below `n`. */
  function SumBelow(n: nat): nat {
    if n == 0 then 0 else SumBelow(n - 1) + (n - 1)
  }

  lemma {:induction false} SumBelowClosed(n: nat)
    ensures 2 * SumBelow(n) == n * (n - 1)
  {
    if n > 0 {
      SumBelowClosed(n - 1);
    }
  }

  lemma {:induction false} SumBelowMonotone(m: nat, n: nat)
    requires m <= n
    ensures SumBelow(m) <= SumBelow(n)
  {
    if m < n {
      SumBelowMonotone(m, n - 1);
    }
  }

  /** Partial sums stay exact for 2^27 terms, and no further. */
  lemma ExactRange(n: nat)
    ensures SumBelow(n) <= MAX_EXACT <==> n <= 0x800_0000
  {
    SumBelowClosed(0x800_0000);
    SumBelowClosed(0x800_0001);
    if n <= 0x800_0000 {
      SumBelowMonotone(n, 0x800_0000);
    } else {
      SumBelowMonotone(0x800_0001, n);
    }
  }

  /** One step of the loop on the server. */
  lemma AccumulateStep(w: World<int>, t: Table<int>, add: nat, lhs: nat, i: nat)
    requires WellFounded(t) && ExactSums(w) && i < 0x800_0000
    requires add < |t| && t[add] == Base(Add) && lhs < |t| && t[lhs] == Value(SumBelow(i))
    ensures var e: Expr<int> := Call(Cap(add), [PreviousResult(Cap(lhs)), Literal(i)]);
            Bound(e) <= |t| && Eval(w, t, e, None) == Ok(SumBelow(i + 1))
  {
    ExactRange(i + 1);
    EvalCall2(w, t, add, PreviousResult(Cap(lhs)), Literal(i), None);
  }

  /** The body of the loop (ts/src/client.ts:323-332). */
  method AddTo(server: CalculatorServer<int>, add: nat, lhs: nat, i: nat) returns (sum: nat)
    requires server.Valid() && ExactSums(server.w) && i < 0x800_0000
    requires add < |server.table| && server.table[add] == Base(Add)
    requires lhs < |server.table| && server.table[lhs] == Value(SumBelow(i))
    modifies server
    ensures server.Valid() && old(server.table) <= server.table
    ensures |server.table| == |old(server.table)| + 1
    ensures sum < |server.table| && server.table[sum] == Value(SumBelow(i + 1))
  {
    AccumulateStep(server.w, server.table, add, lhs, i);
    sum := server.Evaluate(Call(Cap(add), [PreviousResult(Cap(lhs)), Literal(i)]));
  }

  method ReadBack(server: CalculatorServer<int>, id: nat) returns (result: Outcome<int>)
    requires server.Valid() && id < |server.table| && server.table[id].Value?
    ensures result == Ok(server.table[id].value)
  {
    result := server.ReadValue(Cap(id));
  }

  /** The pipelined loop: each step adds `i` to the result of the step before. */
  method Accumulate(server: CalculatorServer<int>, numCalls: nat) returns (result: Outcome<int>)
    requires server.Valid() && ExactSums(server.w) && numCalls <= 0x800_0000
    modifies server
    ensures server.Valid() && old(server.table) <= server.table
    ensures |server.table| == |old(server.table)| + 2 + numCalls
    ensures result == Ok(numCalls * (numCalls - 1) / 2)
  {
    var add: nat := server.GetOperator(0);
    var lhs: nat := server.Evaluate(Literal(0));
    var i := 0;
    while i < numCalls
      invariant 0 <= i <= numCalls
      invariant server.Valid() && old(server.table) <= server.table
      invariant |server.table| == |old(server.table)| + 2 + i
      invariant add < |server.table| && server.table[add] == Base(Add)
      invariant lhs < |server.table| && server.table[lhs] == Value(SumBelow(i))
    {
      lhs := AddTo(server, add, lhs, i);
      i := i + 1;
    }
    SumBelowClosed(numCalls);
    result := ReadBack(server, lhs);
  }

  // ---------------------------------------------------------------------------------------
  // The same loop as the network sees it: all requests sent, answered in any order

  function LoopRequest(i: nat): Request<int> {
    if i == 0 then GetOperator(0)
    else if i == 1 then Evaluate(Literal(0))
    else Evaluate(Call(Cap(0), [PreviousResult(Cap(i - 1)), Literal(i - 2)]))
  }

  function LoopRequests(numCalls: nat): (reqs: seq<Request<int>>)
    ensures |reqs| == numCalls + 2 && ValidSession(reqs)
  {
    var reqs := seq(numCalls + 2, i requires 0 <= i => LoopRequest(i));
    assert ValidSession(reqs) by {
      forall i | 0 <= i < |reqs|
        ensures RequestBound(reqs[i]) <= i
      {
        if i > 1 {
          Bound2<int>(0, PreviousResult(Cap(i - 1)), Literal(i - 2));
        }
      }
    }
    reqs
  }

  lemma {:induction false} LoopValues(w: World<int>, numCalls: nat, i: nat)
    requires ExactSums(w) && i <= numCalls <= 0x800_0000
    ensures Sequential(w, LoopRequests(numCalls))[0] == Base(Add)
    ensures Sequential(w, LoopRequests(numCalls))[i + 1] == Value(SumBelow(i))
  {
    var reqs := LoopRequests(numCalls);
    var t := Sequential(w, reqs);
    SequentialSolves(w, reqs, 0);
    SequentialSolves(w, reqs, i + 1);
    if i > 0 {
      LoopValues(w, numCalls, i - 1);
      AccumulateStep(w, t, 0, i, i - 1);
    }
  }

  /** Whatever order the server answers the pipelined requests in, an answered request holds its
      exact partial sum, so the last one holds n(n-1)/2. */
  lemma AccumulationUnderAnySchedule(w: World<int>, numCalls: nat, order: seq<nat>, tables: seq<Table<int>>, k: nat,
                                     i: nat)
    requires ExactSums(w) && i <= numCalls <= 0x800_0000
    requires IsRun(w, LoopRequests(numCalls), order, tables) && k < |tables|
    ensures |tables[k]| == numCalls + 2
    ensures tables[k][i + 1].Pending? || tables[k][i + 1] == Value(i * (i - 1) / 2)
  {
    ScheduleIndependence(w, LoopRequests(numCalls), order, tables);
    LoopValues(w, numCalls, i);
    SumBelowClosed(i);
    assert 0 <= i + 1 < |LoopRequests(numCalls)|;
  }
}
